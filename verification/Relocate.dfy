/**
 Relocation fields: the bytes the legacy linker writes, and the native linker's range checks
 and writes on 64-bit values. The two agree on the four kinds they share.
 */
module Relocate {
  import opened FixedWidth
  import opened Patches

  const R_8 := 1
  const R_16 := 2
  const R_LO8 := 3
  const R_HI8 := 4
  const R_32 := 5

  /** The bytes of the legacy linker's field for the value S + A; none for an unknown type. */
  function LegacyField(rtype: nat, value: int): seq<byte> {
    if rtype == R_8 || rtype == R_LO8 then [value % 256]
    else if rtype == R_16 then [value % 256, (value / 256) % 256]
    else if rtype == R_HI8 then [(value / 256) % 256]
    else []
  }

  /** Little-endian reading of a field. */
  function FromLittle(bytes: seq<byte>): nat {
    if bytes == [] then 0 else bytes[0] + 256 * FromLittle(bytes[1..])
  }

  /** What the fields mean: 16 bits of the value, its low byte, or the high byte of its 16 bits. */
  lemma LegacyFieldMeans(value: int)
    ensures FromLittle(LegacyField(R_16, value)) == value % 0x10000
    ensures FromLittle(LegacyField(R_8, value)) == value % 0x100 == FromLittle(LegacyField(R_LO8, value))
    ensures FromLittle(LegacyField(R_HI8, value)) == (value % 0x10000) / 0x100
  {
    var two := LegacyField(R_16, value);
    assert two[1..] == [(value / 256) % 256] && two[1..][1..] == [];
    assert FromLittle(two[1..]) == two[1];
    assert LegacyField(R_8, value)[1..] == [] && LegacyField(R_HI8, value)[1..] == [];
  }

  // The native linker.

  predicate FieldWidth(bits: nat) {
    bits == 8 || bits == 16 || bits == 32
  }

  function Limit(bits: nat): int
    requires FieldWidth(bits)
  {
    if bits == 8 then 0x100 else if bits == 16 then 0x1_0000 else 0x1_0000_0000
  }

  /** The 64-bit value whose low `bits` bits are those of `v` and whose other bits repeat the top one. */
  function SignExtend(v: uint64, bits: nat): uint64
    requires FieldWidth(bits)
  {
    var low := v as int % Limit(bits);
    if low < Limit(bits) / 2 then low as uint64 else (TWO64 - Limit(bits) + low) as uint64
  }

  /** The value read as a signed 64-bit number. */
  function Signed(v: uint64): int {
    if v as int < TWO64 / 2 then v as int else v as int - TWO64
  }

  function ToUint64(x: int): uint64 {
    (x % TWO64) as uint64
  }

  /** Accepts a value that fits the field as a signed or as an unsigned number. */
  predicate CheckIntUInt(v: uint64, bits: nat)
    requires FieldWidth(bits)
  {
    v == SignExtend(v, bits) || v as int / Limit(bits) == 0
  }

  lemma CheckAcceptsExactly(v: uint64, bits: nat)
    requires FieldWidth(bits)
    ensures CheckIntUInt(v, bits) <==> -(Limit(bits) / 2) <= Signed(v) < Limit(bits)
  {
    if bits == 8 {
      AcceptsByte(v);
    } else if bits == 16 {
      AcceptsWord(v);
    } else {
      AcceptsLong(v);
    }
  }

  lemma AcceptsByte(v: uint64)
    ensures CheckIntUInt(v, 8) <==> -0x80 <= Signed(v) < 0x100
  {
    var q, low := v as int / 0x100, v as int % 0x100;
    assert v as int == 0x100 * q + low;
  }

  lemma AcceptsWord(v: uint64)
    ensures CheckIntUInt(v, 16) <==> -0x8000 <= Signed(v) < 0x1_0000
  {
    var q, low := v as int / 0x1_0000, v as int % 0x1_0000;
    assert v as int == 0x1_0000 * q + low;
  }

  lemma AcceptsLong(v: uint64)
    ensures CheckIntUInt(v, 32) <==> -0x8000_0000 <= Signed(v) < 0x1_0000_0000
  {
    var q, low := v as int / 0x1_0000_0000, v as int % 0x1_0000_0000;
    assert v as int == 0x1_0000_0000 * q + low;
  }

  /** The value a relocation is given: S + A in 64 bits, sign-extended from the target's 32. */
  function TargetValue(s: int, a: int): uint64 {
    SignExtend(ToUint64(s + a), 32)
  }

  /** The value differs from S + A by a multiple of 2^32. */
  lemma TargetValueIs(s: int, a: int) returns (q: int)
    ensures TargetValue(s, a) as int == s + a + q * 0x1_0000_0000
  {
    var u := ToUint64(s + a) as int;
    var p := (s + a) / TWO64;
    assert u == s + a - p * TWO64;
    var low := u % 0x1_0000_0000;
    var k := u / 0x1_0000_0000;
    q := -p * 0x1_0000_0000 - k + if low < 0x8000_0000 then 0 else 0xFFFF_FFFF;
  }

  lemma ThirtyTwoBitsNeverFail(s: int, a: int)
    ensures CheckIntUInt(TargetValue(s, a), 32)
  {
    SignExtendTwice(ToUint64(s + a));
  }

  lemma SignExtendTwice(v: uint64)
    ensures SignExtend(SignExtend(v, 32), 32) == SignExtend(v, 32)
  {
    var low := v as int % 0x1_0000_0000;
    if low >= 0x8000_0000 {
      AddMultiple(low, 0xFFFF_FFFF, 0x1_0000_0000);
    }
  }

  /** The bytes the native linker writes for a 64-bit value. */
  function NativeField(rtype: nat, val: uint64): seq<byte> {
    var v := val as int;
    if rtype == R_8 || rtype == R_LO8 then [v % 256]
    else if rtype == R_16 then [v % 256, (v / 256) % 256]
    else if rtype == R_HI8 then [(v / 256) % 256]
    else if rtype == R_32 then [v % 256, (v / 256) % 256, (v / 0x1_0000) % 256, (v / 0x100_0000) % 256]
    else []
  }

  /** The value lies outside what the field's kind accepts, or the kind is not known. */
  predicate Reported(rtype: nat, val: uint64) {
    if rtype == R_8 then !CheckIntUInt(val, 8)
    else if rtype == R_16 then !CheckIntUInt(val, 16)
    else if rtype == R_32 then !CheckIntUInt(val, 32)
    else rtype != R_LO8 && rtype != R_HI8
  }

  lemma ValueKeepsLowBits(s: int, a: int)
    ensures TargetValue(s, a) as int % 0x1_0000 == (s + a) % 0x1_0000
  {
    var q := TargetValueIs(s, a);
    AddMultiple(s + a, q * 0x1_0000, 0x1_0000);
  }

  /** For the four kinds both linkers know, the native one writes the legacy one's bytes. */
  lemma NativeMatchesLegacy(rtype: nat, s: int, a: int)
    requires rtype == R_8 || rtype == R_16 || rtype == R_LO8 || rtype == R_HI8
    ensures NativeField(rtype, TargetValue(s, a)) == LegacyField(rtype, s + a)
  {
    ValueKeepsLowBits(s, a);
    LowBytes(TargetValue(s, a) as int);
    LowBytes(s + a);
  }

  lemma LowBytes(v: int)
    ensures v % 256 == (v % 0x1_0000) % 256 && (v / 256) % 256 == (v % 0x1_0000) / 256
  {
  }

  datatype Relocation = Relocation(offset: nat, rtype: nat, s: int, a: int)

  function NativePatch(rel: Relocation): Patch {
    Patch(rel.offset, NativeField(rel.rtype, TargetValue(rel.s, rel.a)))
  }

  function LegacyPatch(rel: Relocation): Patch {
    Patch(rel.offset, LegacyField(rel.rtype, rel.s + rel.a))
  }

  function NativePatches(rels: seq<Relocation>): (ps: seq<Patch>)
    ensures |ps| == |rels| && forall k :: 0 <= k < |rels| ==> ps[k] == NativePatch(rels[k])
  {
    seq(|rels|, k requires 0 <= k < |rels| => NativePatch(rels[k]))
  }

  function LegacyPatches(rels: seq<Relocation>): (ps: seq<Patch>)
    ensures |ps| == |rels| && forall k :: 0 <= k < |rels| ==> ps[k] == LegacyPatch(rels[k])
  {
    seq(|rels|, k requires 0 <= k < |rels| => LegacyPatch(rels[k]))
  }

  /** Writes one field at its place in the buffer, checking its range first. */
  method RelocateField(buf: array<byte>, loc: nat, rtype: nat, val: uint64) returns (reported: bool)
    requires Fits(Patch(loc, NativeField(rtype, val)), buf.Length)
    modifies buf
    ensures buf[..] == Apply(old(buf[..]), Patch(loc, NativeField(rtype, val)))
    ensures reported <==> Reported(rtype, val)
  {
    reported := false;
    var v := val as int;
    if rtype == R_8 {
      reported := !CheckIntUInt(val, 8);
      buf[loc] := v % 256;
    } else if rtype == R_16 {
      reported := !CheckIntUInt(val, 16);
      buf[loc] := v % 256;
      buf[loc + 1] := (v / 256) % 256;
    } else if rtype == R_32 {
      reported := !CheckIntUInt(val, 32);
      buf[loc] := v % 256;
      buf[loc + 1] := (v / 256) % 256;
      buf[loc + 2] := (v / 0x1_0000) % 256;
      buf[loc + 3] := (v / 0x100_0000) % 256;
    } else if rtype == R_LO8 {
      buf[loc] := v % 256;
    } else if rtype == R_HI8 {
      buf[loc] := (v / 256) % 256;
    } else {
      reported := true;
    }
    assert buf[..] == Apply(old(buf[..]), Patch(loc, NativeField(rtype, val)));
  }

  /** All relocations of a section, in their order. */
  method RelocateAlloc(buf: array<byte>, rels: seq<Relocation>) returns (reported: bool)
    requires AllFit(NativePatches(rels), buf.Length)
    modifies buf
    ensures buf[..] == ApplyAll(old(buf[..]), NativePatches(rels))
    ensures reported <==> exists k :: 0 <= k < |rels| && Reported(rels[k].rtype, TargetValue(rels[k].s, rels[k].a))
  {
    hide NativeField, TargetValue, Reported, ApplyAll, Apply;
    reported := false;
    ghost var ps := NativePatches(rels);
    NothingApplied(buf[..], ps);
    for k := 0 to |rels|
      invariant AllFit(ps[..k], buf.Length) && buf[..] == ApplyAll(old(buf[..]), ps[..k])
      invariant reported <==> exists j :: 0 <= j < k && Reported(rels[j].rtype, TargetValue(rels[j].s, rels[j].a))
    {
      NextApplied(old(buf[..]), ps, k);
      var bad := RelocateField(buf, rels[k].offset, rels[k].rtype, TargetValue(rels[k].s, rels[k].a));
      reported := reported || bad;
    }
    assert ps[..|rels|] == ps;
  }

  lemma NothingApplied(out: seq<byte>, ps: seq<Patch>)
    ensures ApplyAll(out, ps[..0]) == out
  {
  }

  lemma NextApplied(out: seq<byte>, ps: seq<Patch>, k: nat)
    requires k < |ps| && AllFit(ps, |out|)
    ensures AllFit(ps[..k], |out|) && AllFit(ps[..k + 1], |out|) && Fits(ps[k], |out|)
    ensures ApplyAll(out, ps[..k + 1]) == Apply(ApplyAll(out, ps[..k]), ps[k])
  {
    hide Apply;
    assert ps[..k + 1][..k] == ps[..k];
  }

  /** On a section whose relocations are of the shared kinds the two linkers leave the same bytes. */
  lemma SameSectionBytes(out: seq<byte>, rels: seq<Relocation>)
    requires forall k :: 0 <= k < |rels| ==> R_8 <= rels[k].rtype <= R_HI8
    requires AllFit(NativePatches(rels), |out|)
    ensures NativePatches(rels) == LegacyPatches(rels)
    ensures ApplyAll(out, NativePatches(rels)) == ApplyAll(out, LegacyPatches(rels))
  {
    hide NativeField, LegacyField, TargetValue, ApplyAll;
    forall k | 0 <= k < |rels| ensures NativePatches(rels)[k] == LegacyPatches(rels)[k] {
      NativeMatchesLegacy(rels[k].rtype, rels[k].s, rels[k].a);
    }
  }
}
