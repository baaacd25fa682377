/**
 The legacy linker's global symbol table: which definition of a name wins, and when two
 definitions clash.
 */
module LegacySymbols {
  import opened Wrappers
  import opened LegacyObjects

  /** Where each section taken into the output begins, by object and section number. */
  type Addresses = map<(nat, nat), nat>

  datatype Definition = Definition(value: nat, obj: nat, shndx: nat, bind: Binding)

  type Globals = map<string, Definition>

  /** A name with one definition of it, in the order in which the linker meets them. */
  datatype Candidate = Candidate(name: string, def: Definition)

  /** A symbol that defines a global name; symbols of sections that are not taken do not. */
  function DefinitionOf(addrs: Addresses, o: nat, sym: Symbol): Option<Definition> {
    if sym.bind.Local? || sym.shndx == 0 then None
    else if sym.shndx == SHN_ABS then Some(Definition(sym.value, o, sym.shndx, sym.bind))
    else if (o, sym.shndx) in addrs then Some(Definition(addrs[(o, sym.shndx)] + sym.value, o, sym.shndx, sym.bind))
    else None
  }

  /** The candidates among the first `n` symbols of object `o`. */
  function ObjectCandidates(addrs: Addresses, o: nat, symbols: seq<Symbol>, n: nat): seq<Candidate>
    requires n <= |symbols|
  {
    if n == 0 then []
    else
      var sym := symbols[n - 1];
      var def := DefinitionOf(addrs, o, sym);
      ObjectCandidates(addrs, o, symbols, n - 1) + if def.Some? then [Candidate(sym.name, def.value)] else []
  }

  /** The candidates of the first `m` objects. */
  function Candidates(addrs: Addresses, objs: seq<Object>, m: nat): seq<Candidate>
    requires m <= |objs|
  {
    if m == 0 then []
    else
      var symbols := objs[m - 1].symbols;
      Candidates(addrs, objs, m - 1) + ObjectCandidates(addrs, m - 1, symbols, |symbols|)
  }

  /** Candidate `i` wins its name: the first that is not weak, or else the first weak one. */
  ghost predicate Wins(cands: seq<Candidate>, i: nat)
    requires i < |cands|
  {
    if cands[i].def.bind.Weak? then
      forall j :: 0 <= j < |cands| && j != i && cands[j].name == cands[i].name ==> cands[j].def.bind.Weak? && i < j
    else
      forall j :: 0 <= j < i && cands[j].name == cands[i].name ==> cands[j].def.bind.Weak?
  }

  /** The table holds exactly the winners. */
  ghost predicate HoldsWinners(cands: seq<Candidate>, defs: Globals) {
    && (forall i :: 0 <= i < |cands| ==> cands[i].name in defs)
    && (forall name :: name in defs ==>
         exists i :: 0 <= i < |cands| && cands[i] == Candidate(name, defs[name]) && Wins(cands, i))
  }

  /** Some name has two definitions that are not weak. */
  ghost predicate Clash(cands: seq<Candidate>) {
    exists i: nat, j: nat :: ClashAt(cands, i, j)
  }

  function Update(defs: Globals, c: Candidate): Globals {
    if c.name !in defs then defs[c.name := c.def]
    else if !c.def.bind.Weak? && defs[c.name].bind.Weak? then defs[c.name := c.def]
    else defs
  }

  predicate Clashes(defs: Globals, c: Candidate) {
    c.name in defs && !c.def.bind.Weak? && !defs[c.name].bind.Weak?
  }

  /** The name of `c` is new, or `c` is the first definition of it that is not weak. */
  lemma NewWinner(cands: seq<Candidate>, defs: Globals, c: Candidate)
    requires HoldsWinners(cands, defs)
    requires c.name !in defs || (!c.def.bind.Weak? && defs[c.name].bind.Weak?)
    ensures Wins(cands + [c], |cands|)
  {
    forall j | 0 <= j < |cands| && cands[j].name == c.name ensures cands[j].def.bind.Weak? {
      var i :| 0 <= i < |cands| && cands[i] == Candidate(c.name, defs[c.name]) && Wins(cands, i);
      assert Wins(cands, i);
    }
  }

  lemma WinnerStays(cands: seq<Candidate>, c: Candidate, i: nat)
    requires i < |cands| && Wins(cands, i)
    requires cands[i].name != c.name || !cands[i].def.bind.Weak? || c.def.bind.Weak?
    ensures Wins(cands + [c], i)
  {
  }

  lemma UpdateKeepsWinners(cands: seq<Candidate>, defs: Globals, c: Candidate)
    requires HoldsWinners(cands, defs)
    ensures HoldsWinners(cands + [c], Update(defs, c))
  {
    hide Wins;
    var cands', defs' := cands + [c], Update(defs, c);
    forall name | name in defs'
      ensures exists i :: 0 <= i < |cands'| && cands'[i] == Candidate(name, defs'[name]) && Wins(cands', i)
    {
      if name == c.name && (c.name !in defs || (!c.def.bind.Weak? && defs[c.name].bind.Weak?)) {
        NewWinner(cands, defs, c);
        assert cands'[|cands|] == c;
      } else {
        var i :| 0 <= i < |cands| && cands[i] == Candidate(name, defs[name]) && Wins(cands, i);
        assert cands'[i] == cands[i];
        WinnerStays(cands, c, i);
      }
    }
    forall i | 0 <= i < |cands'| ensures cands'[i].name in defs' {
      assert i < |cands| ==> cands'[i] == cands[i];
    }
  }

  /** Definitions `i` and `j` of one name, neither of them weak. */
  ghost predicate ClashAt(cands: seq<Candidate>, i: nat, j: nat) {
    && i < j < |cands| && cands[i].name == cands[j].name
    && !cands[i].def.bind.Weak? && !cands[j].def.bind.Weak?
  }

  lemma ClashStays(cands: seq<Candidate>, c: Candidate)
    requires Clash(cands)
    ensures Clash(cands + [c])
  {
    var i: nat, j: nat :| ClashAt(cands, i, j);
    assert ClashAt(cands + [c], i, j);
  }

  lemma ClashesMakesClash(cands: seq<Candidate>, defs: Globals, c: Candidate)
    requires HoldsWinners(cands, defs) && Clashes(defs, c)
    ensures Clash(cands + [c])
  {
    var i :| 0 <= i < |cands| && cands[i] == Candidate(c.name, defs[c.name]) && Wins(cands, i);
    assert ClashAt(cands + [c], i, |cands|);
  }

  lemma NewClashClashes(cands: seq<Candidate>, defs: Globals, c: Candidate)
    requires HoldsWinners(cands, defs) && Clash(cands + [c]) && !Clash(cands)
    ensures Clashes(defs, c)
  {
    var i: nat, j: nat :| ClashAt(cands + [c], i, j);
    assert j < |cands| ==> ClashAt(cands, i, j);
    StrongWins(cands, defs, i);
  }

  lemma ClashesIffClash(cands: seq<Candidate>, defs: Globals, c: Candidate)
    requires HoldsWinners(cands, defs)
    ensures Clash(cands + [c]) <==> Clash(cands) || Clashes(defs, c)
  {
    hide Clash, HoldsWinners, Clashes;
    if Clash(cands) {
      ClashStays(cands, c);
    } else if Clashes(defs, c) {
      ClashesMakesClash(cands, defs, c);
    } else if Clash(cands + [c]) {
      NewClashClashes(cands, defs, c);
    }
  }

  /** A name with a definition that is not weak is held by such a definition. */
  lemma StrongWins(cands: seq<Candidate>, defs: Globals, i: nat)
    requires HoldsWinners(cands, defs) && i < |cands| && !cands[i].def.bind.Weak?
    ensures cands[i].name in defs && !defs[cands[i].name].bind.Weak?
    ensures !Clash(cands) ==> defs[cands[i].name] == cands[i].def
  {
    var name := cands[i].name;
    var w :| 0 <= w < |cands| && cands[w] == Candidate(name, defs[name]) && Wins(cands, w);
    assert Wins(cands, w);
    assert w < i && !cands[w].def.bind.Weak? ==> ClashAt(cands, w, i);
  }

  /** The table is determined by the candidates. */
  lemma WinnersUnique(cands: seq<Candidate>, defs: Globals, defs': Globals)
    requires HoldsWinners(cands, defs) && HoldsWinners(cands, defs')
    ensures defs == defs'
  {
    hide Wins;
    forall name | name in defs ensures name in defs' && defs[name] == defs'[name] {
      SameWinner(cands, defs, defs', name);
    }
    forall name | name in defs' ensures name in defs {
      var j :| 0 <= j < |cands| && cands[j] == Candidate(name, defs'[name]) && Wins(cands, j);
    }
  }

  lemma SameWinner(cands: seq<Candidate>, defs: Globals, defs': Globals, name: string)
    requires HoldsWinners(cands, defs) && HoldsWinners(cands, defs') && name in defs
    ensures name in defs' && defs[name] == defs'[name]
  {
    var i :| 0 <= i < |cands| && cands[i] == Candidate(name, defs[name]) && Wins(cands, i);
    assert cands[i].name in defs';
    var j :| 0 <= j < |cands| && cands[j] == Candidate(name, defs'[name]) && Wins(cands, j);
    assert Wins(cands, i) && Wins(cands, j);
  }

  /** The candidates of the first `o` objects and of the first `n` symbols of the next one. */
  function CandidatesUpTo(addrs: Addresses, objs: seq<Object>, o: nat, n: nat): seq<Candidate>
    requires o < |objs| && n <= |objs[o].symbols|
  {
    Candidates(addrs, objs, o) + ObjectCandidates(addrs, o, objs[o].symbols, n)
  }

  lemma CandidatesGrow(addrs: Addresses, objs: seq<Object>, o: nat, n: nat)
    requires o < |objs| && n <= |objs[o].symbols|
    ensures n == 0 ==> CandidatesUpTo(addrs, objs, o, n) == Candidates(addrs, objs, o)
    ensures n == |objs[o].symbols| ==> CandidatesUpTo(addrs, objs, o, n) == Candidates(addrs, objs, o + 1)
    ensures n < |objs[o].symbols| ==>
              var sym := objs[o].symbols[n];
              var def := DefinitionOf(addrs, o, sym);
              CandidatesUpTo(addrs, objs, o, n + 1) ==
              CandidatesUpTo(addrs, objs, o, n) + if def.Some? then [Candidate(sym.name, def.value)] else []
  {
  }

  /** The table after some candidates, and whether an error has been noted. */
  ghost predicate TableFor(cands: seq<Candidate>, defs: Globals, clash: bool) {
    HoldsWinners(cands, defs) && (clash <==> Clash(cands))
  }

  lemma TableForNext(cands: seq<Candidate>, defs: Globals, clash: bool, c: Candidate)
    requires TableFor(cands, defs, clash)
    ensures TableFor(cands + [c], Update(defs, c), clash || Clashes(defs, c))
  {
    UpdateKeepsWinners(cands, defs, c);
    ClashesIffClash(cands, defs, c);
  }

  /** Phase 1: one pass over all symbols of all objects. */
  method BuildGlobals(addrs: Addresses, objs: seq<Object>) returns (defs: Globals, clash: bool)
    ensures HoldsWinners(Candidates(addrs, objs, |objs|), defs)
    ensures clash <==> Clash(Candidates(addrs, objs, |objs|))
  {
    defs, clash := map[], false;
    assert TableFor(Candidates(addrs, objs, 0), defs, clash);
    for o := 0 to |objs|
      invariant TableFor(Candidates(addrs, objs, o), defs, clash)
    {
      defs, clash := AddObject(addrs, objs, o, defs, clash);
    }
  }

  method AddObject(addrs: Addresses, objs: seq<Object>, o: nat, defs: Globals, clash: bool)
    returns (defs': Globals, clash': bool)
    requires o < |objs| && TableFor(Candidates(addrs, objs, o), defs, clash)
    ensures TableFor(Candidates(addrs, objs, o + 1), defs', clash')
  {
    hide TableFor, Candidates, CandidatesUpTo, DefinitionOf;
    defs', clash' := defs, clash;
    CandidatesGrow(addrs, objs, o, 0);
    for n := 0 to |objs[o].symbols|
      invariant TableFor(CandidatesUpTo(addrs, objs, o, n), defs', clash')
    {
      CandidatesGrow(addrs, objs, o, n);
      var def := DefinitionOf(addrs, o, objs[o].symbols[n]);
      if def.Some? {
        var c := Candidate(objs[o].symbols[n].name, def.value);
        TableForNext(CandidatesUpTo(addrs, objs, o, n), defs', clash', c);
        defs', clash' := Update(defs', c), clash' || Clashes(defs', c);
      } else {
        assert CandidatesUpTo(addrs, objs, o, n) + [] == CandidatesUpTo(addrs, objs, o, n);
      }
    }
    CandidatesGrow(addrs, objs, o, |objs[o].symbols|);
  }

  /** A reference to a name that no object defines. */
  predicate IsUndefined(defs: Globals, sym: Symbol) {
    !sym.bind.Local? && sym.shndx == 0 && sym.name != "" && sym.name !in defs
  }

  /** Phase 2: whether any reference is left undefined. */
  method AnyUndefined(objs: seq<Object>, defs: Globals) returns (undefined: bool)
    ensures undefined <==>
              exists o, s :: 0 <= o < |objs| && 0 <= s < |objs[o].symbols| && IsUndefined(defs, objs[o].symbols[s])
  {
    undefined := false;
    for o := 0 to |objs|
      invariant undefined <==>
                  exists p, s :: 0 <= p < o && 0 <= s < |objs[p].symbols| && IsUndefined(defs, objs[p].symbols[s])
    {
      for n := 0 to |objs[o].symbols|
        invariant undefined <==>
                    || (exists p, s ::
                         0 <= p < o && 0 <= s < |objs[p].symbols| && IsUndefined(defs, objs[p].symbols[s]))
                    || (exists s :: 0 <= s < n && IsUndefined(defs, objs[o].symbols[s]))
      {
        undefined := undefined || IsUndefined(defs, objs[o].symbols[n]);
      }
    }
  }

  /** The value of a symbol as a relocation in object `o` sees it; the local definition is asked first. */
  function Resolve(addrs: Addresses, defs: Globals, o: nat, sym: Symbol): Option<nat> {
    if sym.bind.Local? || sym.shndx != 0 then
      if sym.shndx == SHN_ABS then Some(sym.value)
      else if (o, sym.shndx) in addrs then Some(addrs[(o, sym.shndx)] + sym.value)
      else None
    else if sym.name in defs then Some(defs[sym.name].value)
    else None
  }

  lemma {:induction false} ObjectCandidateListed(addrs: Addresses, o: nat, symbols: seq<Symbol>, s: nat, n: nat)
    requires s < n <= |symbols| && DefinitionOf(addrs, o, symbols[s]).Some?
    ensures Candidate(symbols[s].name, DefinitionOf(addrs, o, symbols[s]).value) in
            ObjectCandidates(addrs, o, symbols, n)
  {
    if s < n - 1 {
      ObjectCandidateListed(addrs, o, symbols, s, n - 1);
    }
  }

  lemma {:induction false} CandidateListed(addrs: Addresses, objs: seq<Object>, o: nat, s: nat, m: nat)
    requires o < m <= |objs| && s < |objs[o].symbols| && DefinitionOf(addrs, o, objs[o].symbols[s]).Some?
    ensures Candidate(objs[o].symbols[s].name, DefinitionOf(addrs, o, objs[o].symbols[s]).value) in
            Candidates(addrs, objs, m)
  {
    if o == m - 1 {
      ObjectCandidateListed(addrs, o, objs[o].symbols, s, |objs[o].symbols|);
    } else {
      CandidateListed(addrs, objs, o, s, m - 1);
    }
  }

  /**
   Without a clash, a global symbol that is not weak and that its own object defines has the
   same address whether it is resolved locally or through the global table.
   */
  lemma StrongSymbolsAgree(addrs: Addresses, objs: seq<Object>, defs: Globals, o: nat, s: nat)
    requires HoldsWinners(Candidates(addrs, objs, |objs|), defs) && !Clash(Candidates(addrs, objs, |objs|))
    requires o < |objs| && s < |objs[o].symbols| && objs[o].symbols[s].bind.Strong?
    requires DefinitionOf(addrs, o, objs[o].symbols[s]).Some?
    ensures objs[o].symbols[s].name in defs
    ensures Resolve(addrs, defs, o, objs[o].symbols[s]) == Some(defs[objs[o].symbols[s].name].value)
  {
    hide HoldsWinners, Clash, Candidates;
    var cands := Candidates(addrs, objs, |objs|);
    CandidateListed(addrs, objs, o, s, |objs|);
    var c := Candidate(objs[o].symbols[s].name, DefinitionOf(addrs, o, objs[o].symbols[s]).value);
    var i :| 0 <= i < |cands| && cands[i] == c;
    StrongWins(cands, defs, i);
  }

  /** An object with one absolute symbol. */
  function OneSymbol(sym: Symbol): Object {
    Object([], [sym], [])
  }

  lemma TwoCandidates(addrs: Addresses, a: Symbol, b: Symbol)
    requires !a.bind.Local? && !b.bind.Local? && a.shndx == SHN_ABS == b.shndx
    ensures Candidates(addrs, [OneSymbol(a), OneSymbol(b)], 2) ==
            [Candidate(a.name, Definition(a.value, 0, SHN_ABS, a.bind)),
                Candidate(b.name, Definition(b.value, 1, SHN_ABS, b.bind))]
  {
    var objs := [OneSymbol(a), OneSymbol(b)];
    assert ObjectCandidates(addrs, 0, [a], 0) == [] && ObjectCandidates(addrs, 1, [b], 0) == [];
    assert ObjectCandidates(addrs, 0, [a], 1) == [Candidate(a.name, Definition(a.value, 0, SHN_ABS, a.bind))];
    assert ObjectCandidates(addrs, 1, [b], 1) == [Candidate(b.name, Definition(b.value, 1, SHN_ABS, b.bind))];
    assert Candidates(addrs, objs, 0) == [];
    assert Candidates(addrs, objs, 1) == ObjectCandidates(addrs, 0, [a], 1);
  }

  lemma StrongOverWeak(c: Candidate, d: Candidate)
    requires c.name == d.name && c.def.bind.Weak? && !d.def.bind.Weak?
    ensures HoldsWinners([c, d], map[d.name := d.def]) && !Clash([c, d])
  {
    assert Wins([c, d], 1);
    assert [c, d][1] == Candidate(d.name, d.def);
  }

  /** A weak symbol defined in its own object keeps its own address there, even when another object wins the name. */
  lemma WeakSymbolsMayDiffer()
    ensures exists addrs: Addresses, objs: seq<Object>, defs: Globals ::
              && |objs| == 2 && |objs[0].symbols| == 1
              && HoldsWinners(Candidates(addrs, objs, 2), defs) && !Clash(Candidates(addrs, objs, 2))
              && DefinitionOf(addrs, 0, objs[0].symbols[0]).Some? && objs[0].symbols[0].name in defs
              && Resolve(addrs, defs, 0, objs[0].symbols[0]) != Some(defs[objs[0].symbols[0].name].value)
  {
    hide HoldsWinners, Clash, Candidates;
    var addrs: Addresses := map[];
    var weak, strong := Symbol("f", 1, Weak, SHN_ABS), Symbol("f", 2, Strong, SHN_ABS);
    var objs := [OneSymbol(weak), OneSymbol(strong)];
    var d := Candidate("f", Definition(2, 1, SHN_ABS, Strong));
    TwoCandidates(addrs, weak, strong);
    StrongOverWeak(Candidate("f", Definition(1, 0, SHN_ABS, Weak)), d);
    var defs: Globals := map["f" := d.def];
    assert Resolve(addrs, defs, 0, objs[0].symbols[0]) == Some(1);
  }

  // The winner of a name in terms of the objects.

  /** Symbol `s` of object `o` defines a global name. */
  predicate Defines(addrs: Addresses, objs: seq<Object>, o: nat, s: nat) {
    o < |objs| && s < |objs[o].symbols| && DefinitionOf(addrs, o, objs[o].symbols[s]).Some?
  }

  predicate Earlier(o: nat, s: nat, p: nat, q: nat) {
    o < p || (o == p && s < q)
  }

  /**
   Of all definitions of its name, symbol `s` of object `o` is the first that is not weak, or,
   when all of them are weak, the first.
   */
  ghost predicate IsWinner(addrs: Addresses, objs: seq<Object>, o: nat, s: nat)
    requires Defines(addrs, objs, o, s)
  {
    forall p: nat, q: nat ::
      Defines(addrs, objs, p, q) && (p != o || q != s) && objs[p].symbols[q].name == objs[o].symbols[s].name ==>
      if objs[o].symbols[s].bind.Weak? then objs[p].symbols[q].bind.Weak? && Earlier(o, s, p, q)
      else Earlier(p, q, o, s) ==> objs[p].symbols[q].bind.Weak?
  }

  /** Where the candidates among the first `n` symbols of an object come from. */
  function ObjectOrigins(addrs: Addresses, o: nat, symbols: seq<Symbol>, n: nat): (r: seq<(nat, nat)>)
    requires n <= |symbols|
    ensures |r| == |ObjectCandidates(addrs, o, symbols, n)|
  {
    if n == 0 then []
    else
      ObjectOrigins(addrs, o, symbols, n - 1) +
          if DefinitionOf(addrs, o, symbols[n - 1]).Some? then [(o, n - 1)] else []
  }

  function Origins(addrs: Addresses, objs: seq<Object>, m: nat): (r: seq<(nat, nat)>)
    requires m <= |objs|
    ensures |r| == |Candidates(addrs, objs, m)|
  {
    if m == 0 then []
    else Origins(addrs, objs, m - 1) + ObjectOrigins(addrs, m - 1, objs[m - 1].symbols, |objs[m - 1].symbols|)
  }

  /** The candidate is the definition that the symbol gives. */
  predicate ComesFrom(addrs: Addresses, objs: seq<Object>, c: Candidate, from: (nat, nat)) {
    && Defines(addrs, objs, from.0, from.1)
    && var sym := objs[from.0].symbols[from.1];
    c == Candidate(sym.name, DefinitionOf(addrs, from.0, sym).value) && c.def.bind == sym.bind
  }

  /** The origins and candidates of an object are in scan order and complete. */
  ghost predicate FitObject(addrs: Addresses, objs: seq<Object>, o: nat, n: nat, r: seq<(nat, nat)>,
                            cands: seq<Candidate>)
    requires o < |objs| && n <= |objs[o].symbols|
  {
    && |r| == |cands|
    && (forall k :: 0 <= k < |r| ==> r[k].0 == o && r[k].1 < n && ComesFrom(addrs, objs, cands[k], r[k]))
    && (forall k, l :: 0 <= k < l < |r| ==> r[k].1 < r[l].1)
    && (forall s: nat :: s < n && Defines(addrs, objs, o, s) ==> (o, s) in r)
  }

  lemma {:induction false} ObjectOriginsFacts(addrs: Addresses, objs: seq<Object>, o: nat, n: nat)
    requires o < |objs| && n <= |objs[o].symbols|
    ensures FitObject(addrs, objs, o, n, ObjectOrigins(addrs, o, objs[o].symbols, n),
                      ObjectCandidates(addrs, o, objs[o].symbols, n))
  {
    hide DefinitionOf, FitObject;
    if n == 0 {
      NothingFits(addrs, objs, o);
    } else {
      ObjectOriginsFacts(addrs, objs, o, n - 1);
      FitNext(addrs, objs, o, n - 1, ObjectOrigins(addrs, o, objs[o].symbols, n - 1),
              ObjectCandidates(addrs, o, objs[o].symbols, n - 1));
      NoMore(ObjectOrigins(addrs, o, objs[o].symbols, n - 1), ObjectCandidates(addrs, o, objs[o].symbols, n - 1));
    }
  }

  lemma NoMore(x: seq<(nat, nat)>, y: seq<Candidate>)
    ensures x + [] == x && y + [] == y
  {
  }

  lemma NothingFits(addrs: Addresses, objs: seq<Object>, o: nat)
    requires o < |objs|
    ensures FitObject(addrs, objs, o, 0, [], [])
  {
  }

  lemma FitNext(addrs: Addresses, objs: seq<Object>, o: nat, n: nat, x: seq<(nat, nat)>, known: seq<Candidate>)
    requires o < |objs| && n < |objs[o].symbols| && FitObject(addrs, objs, o, n, x, known)
    ensures var sym := objs[o].symbols[n];
            var def := DefinitionOf(addrs, o, sym);
            if def.Some? then FitObject(addrs, objs, o, n + 1, x + [(o, n)], known + [Candidate(sym.name, def.value)])
            else FitObject(addrs, objs, o, n + 1, x, known)
  {
    hide DefinitionOf, ComesFrom;
    var sym := objs[o].symbols[n];
    var def := DefinitionOf(addrs, o, sym);
    BindOf(addrs, o, sym);
    if def.Some? {
      var r := x + [(o, n)];
      assert ComesFrom(addrs, objs, Candidate(sym.name, def.value), (o, n)) by {
        NewOrigin(addrs, objs, o, n);
      }
      forall s: nat | s < n + 1 && Defines(addrs, objs, o, s) ensures (o, s) in r {
        if s == n {
          assert r[|x|] == (o, s);
        }
      }
    }
  }

  lemma NewOrigin(addrs: Addresses, objs: seq<Object>, o: nat, n: nat)
    requires Defines(addrs, objs, o, n)
    ensures var sym := objs[o].symbols[n];
            ComesFrom(addrs, objs, Candidate(sym.name, DefinitionOf(addrs, o, sym).value), (o, n))
  {
    BindOf(addrs, o, objs[o].symbols[n]);
  }

  lemma BindOf(addrs: Addresses, o: nat, sym: Symbol)
    ensures DefinitionOf(addrs, o, sym).Some? ==> DefinitionOf(addrs, o, sym).value.bind == sym.bind && !sym.bind.Local?
  {
  }

  /** Candidate `i` comes from the origin with its number; origins are in scan order and complete. */
  ghost predicate OriginsFit(addrs: Addresses, objs: seq<Object>, m: nat, r: seq<(nat, nat)>, cands: seq<Candidate>)
    requires m <= |objs|
  {
    && |r| == |cands|
    && (forall k :: 0 <= k < |r| ==> r[k].0 < m && ComesFrom(addrs, objs, cands[k], r[k]))
    && (forall k, l :: 0 <= k < l < |r| ==> Earlier(r[k].0, r[k].1, r[l].0, r[l].1))
    && (forall o: nat, s: nat :: o < m && Defines(addrs, objs, o, s) ==> (o, s) in r)
  }

  lemma {:induction false} OriginsFacts(addrs: Addresses, objs: seq<Object>, m: nat)
    requires m <= |objs|
    ensures OriginsFit(addrs, objs, m, Origins(addrs, objs, m), Candidates(addrs, objs, m))
  {
    hide ObjectOrigins, ObjectCandidates, OriginsFit;
    if m == 0 {
      NoOrigins(addrs, objs);
    } else {
      OriginsFacts(addrs, objs, m - 1);
      ObjectOriginsFacts(addrs, objs, m - 1, |objs[m - 1].symbols|);
      OriginsConcat(addrs, objs, m - 1, Origins(addrs, objs, m - 1), Candidates(addrs, objs, m - 1),
                    ObjectOrigins(addrs, m - 1, objs[m - 1].symbols, |objs[m - 1].symbols|),
                    ObjectCandidates(addrs, m - 1, objs[m - 1].symbols, |objs[m - 1].symbols|));
    }
  }

  lemma NoOrigins(addrs: Addresses, objs: seq<Object>)
    ensures OriginsFit(addrs, objs, 0, [], [])
  {
  }

  lemma OriginsConcat(addrs: Addresses, objs: seq<Object>, o: nat, x: seq<(nat, nat)>, known: seq<Candidate>,
                      y: seq<(nat, nat)>, more: seq<Candidate>)
    requires o < |objs| && OriginsFit(addrs, objs, o, x, known)
    requires FitObject(addrs, objs, o, |objs[o].symbols|, y, more)
    ensures OriginsFit(addrs, objs, o + 1, x + y, known + more)
  {
    hide ComesFrom, Defines;
    DefinesInRange(addrs, objs, o);
  }

  lemma DefinesInRange(addrs: Addresses, objs: seq<Object>, o: nat)
    requires o < |objs|
    ensures forall s: nat :: Defines(addrs, objs, o, s) ==> s < |objs[o].symbols|
  {
  }

  /** The candidate that wins is the definition that wins among the objects. */
  lemma WinnerAmongObjects(addrs: Addresses, objs: seq<Object>, i: nat)
    requires i < |Candidates(addrs, objs, |objs|)| && Wins(Candidates(addrs, objs, |objs|), i)
    ensures var from := Origins(addrs, objs, |objs|)[i];
            ComesFrom(addrs, objs, Candidates(addrs, objs, |objs|)[i], from) && IsWinner(addrs, objs, from.0, from.1)
  {
    hide Candidates, Origins, DefinitionOf;
    OriginsFacts(addrs, objs, |objs|);
    var r, cands := Origins(addrs, objs, |objs|), Candidates(addrs, objs, |objs|);
    var o, s := r[i].0, r[i].1;
    assert ComesFrom(addrs, objs, cands[i], r[i]);
    forall p: nat, q: nat | Defines(addrs, objs, p, q) && (p != o || q != s)
                            && objs[p].symbols[q].name == objs[o].symbols[s].name
      ensures if objs[o].symbols[s].bind.Weak? then objs[p].symbols[q].bind.Weak? && Earlier(o, s, p, q)
              else Earlier(p, q, o, s) ==> objs[p].symbols[q].bind.Weak?
    {
      assert (p, q) in r;
      var j :| 0 <= j < |r| && r[j] == (p, q);
      assert ComesFrom(addrs, objs, cands[j], r[j]);
    }
  }

  /** There is one winner for a name. */
  lemma OneWinner(addrs: Addresses, objs: seq<Object>, o: nat, s: nat, p: nat, q: nat)
    requires Defines(addrs, objs, o, s) && Defines(addrs, objs, p, q)
    requires IsWinner(addrs, objs, o, s) && IsWinner(addrs, objs, p, q)
    requires objs[o].symbols[s].name == objs[p].symbols[q].name
    ensures o == p && s == q
  {
    hide Defines;
  }

  /** The table holds, for every name it has, the definition that wins among the objects. */
  lemma TableHoldsWinner(addrs: Addresses, objs: seq<Object>, defs: Globals, p: nat, q: nat)
    requires HoldsWinners(Candidates(addrs, objs, |objs|), defs)
    requires Defines(addrs, objs, p, q) && IsWinner(addrs, objs, p, q)
    ensures objs[p].symbols[q].name in defs
    ensures defs[objs[p].symbols[q].name] == DefinitionOf(addrs, p, objs[p].symbols[q]).value
  {
    hide Candidates, DefinitionOf, IsWinner, Wins;
    var cands, name := Candidates(addrs, objs, |objs|), objs[p].symbols[q].name;
    CandidateListed(addrs, objs, p, q, |objs|);
    assert name in defs;
    var i :| 0 <= i < |cands| && cands[i] == Candidate(name, defs[name]) && Wins(cands, i);
    WinnerAmongObjects(addrs, objs, i);
    var from := Origins(addrs, objs, |objs|)[i];
    OneWinner(addrs, objs, from.0, from.1, p, q);
  }

  /** Every name in the table has a winner among the objects. */
  lemma WinnerOf(addrs: Addresses, objs: seq<Object>, defs: Globals, name: string) returns (p: nat, q: nat)
    requires HoldsWinners(Candidates(addrs, objs, |objs|), defs) && name in defs
    ensures Defines(addrs, objs, p, q) && IsWinner(addrs, objs, p, q) && objs[p].symbols[q].name == name
  {
    hide Candidates, DefinitionOf, IsWinner, Wins;
    var cands := Candidates(addrs, objs, |objs|);
    var i :| 0 <= i < |cands| && cands[i] == Candidate(name, defs[name]) && Wins(cands, i);
    WinnerAmongObjects(addrs, objs, i);
    var from := Origins(addrs, objs, |objs|)[i];
    p, q := from.0, from.1;
  }

  /**
   Without a clash, a symbol that its own object defines resolves to the address in the table
   if and only if it is not weak or the definition that wins its name has the same address.
   */
  lemma LocalAgreesIff(addrs: Addresses, objs: seq<Object>, defs: Globals, o: nat, s: nat, p: nat, q: nat)
    requires HoldsWinners(Candidates(addrs, objs, |objs|), defs) && !Clash(Candidates(addrs, objs, |objs|))
    requires Defines(addrs, objs, o, s) && Defines(addrs, objs, p, q) && IsWinner(addrs, objs, p, q)
    requires objs[p].symbols[q].name == objs[o].symbols[s].name
    ensures objs[o].symbols[s].name in defs
    ensures Resolve(addrs, defs, o, objs[o].symbols[s]) == Some(defs[objs[o].symbols[s].name].value) <==>
              || !objs[o].symbols[s].bind.Weak?
              || DefinitionOf(addrs, p, objs[p].symbols[q]).value.value ==
                  DefinitionOf(addrs, o, objs[o].symbols[s]).value.value
  {
    hide Candidates, HoldsWinners, Clash, IsWinner, DefinitionOf, Resolve;
    TableHoldsWinner(addrs, objs, defs, p, q);
    LocalValue(addrs, defs, o, objs[o].symbols[s]);
    BindOf(addrs, o, objs[o].symbols[s]);
    if objs[o].symbols[s].bind.Strong? {
      StrongSymbolsAgree(addrs, objs, defs, o, s);
    }
  }

  /** A symbol that its own object defines resolves to that definition. */
  lemma LocalValue(addrs: Addresses, defs: Globals, o: nat, sym: Symbol)
    requires DefinitionOf(addrs, o, sym).Some?
    ensures Resolve(addrs, defs, o, sym) == Some(DefinitionOf(addrs, o, sym).value.value)
  {
  }
}
