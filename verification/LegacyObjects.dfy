/** Parsed object files as the legacy tools see them, and the order of their sections. */
module LegacyObjects {
  import opened Patches

  const SHN_ABS: nat := 0xFFF1

  datatype SectionType = Progbits | Nobits | OtherType

  /** `data` is what the file holds for the section; a truncated file has less than `size` bytes. */
  datatype Section = Section(name: string, kind: SectionType, allocFlag: bool, size: nat, data: seq<byte>)

  datatype Binding = Local | Weak | Strong

  datatype Symbol = Symbol(name: string, value: nat, bind: Binding, shndx: nat)

  datatype Rela = Rela(offset: nat, symIndex: nat, rtype: nat, addend: int, target: nat)

  datatype Object = Object(sections: seq<Section>, symbols: seq<Symbol>, relas: seq<Rela>)

  function Zeros(n: nat): (r: seq<byte>)
    ensures |r| == n && forall i :: 0 <= i < n ==> r[i] == 0
  {
    seq(n, _ => 0)
  }

  /** A section without contents reads as zeros. */
  function Contents(s: Section): seq<byte> {
    if s.kind.Nobits? then Zeros(s.size) else s.data
  }

  predicate StartsWith(name: string, prefix: string) {
    prefix <= name
  }

  predicate InFamily(name: string, family: string) {
    name == family || StartsWith(name, family + ".")
  }

  /** .text, .rodata, .data, .bss in this order; unknown names count with .text, after it. */
  function SortKey(name: string): (nat, string) {
    if InFamily(name, ".text") then (0, name)
    else if InFamily(name, ".rodata") then (1, name)
    else if InFamily(name, ".data") then (2, name)
    else if InFamily(name, ".bss") then (3, name)
    else (0, "z_" + name)
  }

  predicate IsAlloc(s: Section) {
    && !s.kind.OtherType?
    && s.size != 0
    && (s.allocFlag || InFamily(s.name, ".text") || InFamily(s.name, ".rodata")
        || InFamily(s.name, ".data") || InFamily(s.name, ".bss"))
  }
}
