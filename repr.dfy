/**
 * The parts of Rust's type-layout rules that `src/elf.rs` relies on:
 *  - `#[repr(C)]` structs: fields are placed in declaration order, each at the
 *    first offset at or after the end of the previous field that is a multiple
 *    of its alignment; the size of the struct is the end of the last field
 *    rounded up to the largest field alignment;
 *  - field-less enums: a variant without an explicit discriminant takes the
 *    previous variant's discriminant plus one, and the first one takes 0.
 */
module Repr {

  /**
   * The alignment of a field. Every field here is a primitive integer or an
   * array of them, so its alignment is that of a primitive type on a 32-bit
   * target: 1, 2, 4 or 8 bytes.
   */
  datatype Alignment = Align1 | Align2 | Align4 | Align8
  {
    function Bytes(): (n: nat)
      ensures n > 0
    {
      match this
      case Align1 => 1
      case Align2 => 2
      case Align4 => 4
      case Align8 => 8
    }

    /** `off` is a multiple of this alignment. */
    predicate Admits(off: nat)
    {
      match this
      case Align1 => true
      case Align2 => off % 2 == 0
      case Align4 => off % 4 == 0
      case Align8 => off % 8 == 0
    }
  }

  /** One field of a `#[repr(C)]` struct: its size in bytes and its alignment. */
  datatype Field = Field(size: nat, align: Alignment)

  /**
   * `off` rounded up to a multiple of `align`: the least one, since the next
   * lower multiple lies below `off`.
   */
  function AlignUp(off: nat, align: Alignment): (r: nat)
    ensures align.Admits(r) && off <= r < off + align.Bytes()
  {
    match align
    case Align1 => off
    case Align2 => 2 * CeilDiv(off, 2)
    case Align4 => 4 * CeilDiv(off, 4)
    case Align8 => 8 * CeilDiv(off, 8)
  }

  /** The least `q` with `off <= n * q`. */
  function CeilDiv(off: nat, n: nat): (q: nat)
    requires n > 0
    ensures off <= n * q < off + n
  {
    var q, m := off / n, off % n;
    assert off == n * q + m;
    if m == 0 then q
    else
      assert n * (q + 1) == n * q + n;
      q + 1
  }

  /** An offset already on a multiple of the alignment stays where it is. */
  lemma AlignUpAligned(off: nat, align: Alignment)
    requires align.Admits(off)
    ensures AlignUp(off, align) == off
  {
  }

  /** The offset of field i: the end of the fields before it, rounded up to its alignment. */
  function Offset(fields: seq<Field>, i: nat): (off: nat)
    requires i < |fields|
    ensures fields[i].align.Admits(off)
    decreases i, 1
  {
    AlignUp(EndOf(fields, i), fields[i].align)
  }

  /** The first byte after the first n fields. */
  function EndOf(fields: seq<Field>, n: nat): (end: nat)
    requires n <= |fields|
    ensures SizesOf(fields, n) <= end
    decreases n, 0
  {
    if n == 0 then 0 else Offset(fields, n - 1) + fields[n - 1].size
  }

  /** The total size of the first n fields, without padding. */
  function SizesOf(fields: seq<Field>, n: nat): nat
    requires n <= |fields|
  {
    if n == 0 then 0 else SizesOf(fields, n - 1) + fields[n - 1].size
  }

  /** The largest alignment among the first n fields (1 if there are none). */
  function MaxAlign(fields: seq<Field>, n: nat): (a: Alignment)
    requires n <= |fields|
    ensures forall i | 0 <= i < n :: fields[i].align.Bytes() <= a.Bytes()
    ensures a == Align1 || exists i | 0 <= i < n :: fields[i].align == a
  {
    if n == 0 then Align1
    else
      var rest := MaxAlign(fields, n - 1);
      if fields[n - 1].align.Bytes() > rest.Bytes() then fields[n - 1].align else rest
  }

  /** The struct's alignment is `a` when some field has alignment `a` and none a larger one. */
  lemma MaxAlignIs(fields: seq<Field>, a: Alignment, w: nat)
    requires w < |fields| && fields[w].align == a
    requires forall i | 0 <= i < |fields| :: fields[i].align.Bytes() <= a.Bytes()
    ensures MaxAlign(fields, |fields|) == a
  {
    var m := MaxAlign(fields, |fields|);
    assert a.Bytes() <= m.Bytes();
    if m != Align1 {
      var i :| 0 <= i < |fields| && fields[i].align == m;
    }
  }

  /** `size_of` of a `#[repr(C)]` struct: its end rounded up to the struct's alignment. */
  function SizeOf(fields: seq<Field>): (size: nat)
    ensures MaxAlign(fields, |fields|).Admits(size)
    ensures EndOf(fields, |fields|) <= size < EndOf(fields, |fields|) + MaxAlign(fields, |fields|).Bytes()
  {
    AlignUp(EndOf(fields, |fields|), MaxAlign(fields, |fields|))
  }

  /**
   * A layout given as a list of offsets is the `#[repr(C)]` one when each
   * offset is the end of the previous field rounded up to its own alignment.
   */
  lemma {:induction false} OffsetsAre(fields: seq<Field>, offs: seq<nat>)
    requires |offs| == |fields|
    requires forall i | 0 <= i < |fields| ::
      offs[i] == AlignUp(if i == 0 then 0 else offs[i - 1] + fields[i - 1].size, fields[i].align)
    ensures forall i | 0 <= i < |fields| :: Offset(fields, i) == offs[i]
    ensures EndOf(fields, |fields|) == if fields == [] then 0 else offs[|fields| - 1] + fields[|fields| - 1].size
  {
    forall i | 0 <= i < |fields|
      ensures Offset(fields, i) == offs[i]
    {
      OffsetIs(fields, offs, i);
    }
  }

  /**
   * A layout given as offsets and a size is the `#[repr(C)]` one: the offsets
   * follow the placement rule, field `w` has the largest alignment `a`, and
   * the size is the end of the last field rounded up to `a`.
   */
  lemma LayoutIs(fields: seq<Field>, offs: seq<nat>, size: nat, a: Alignment, w: nat)
    requires |offs| == |fields| && w < |fields|
    requires forall i | 0 <= i < |fields| ::
      offs[i] == AlignUp(if i == 0 then 0 else offs[i - 1] + fields[i - 1].size, fields[i].align)
    requires fields[w].align == a && forall i | 0 <= i < |fields| :: fields[i].align.Bytes() <= a.Bytes()
    requires size == AlignUp(offs[|fields| - 1] + fields[|fields| - 1].size, a)
    ensures forall i | 0 <= i < |fields| :: Offset(fields, i) == offs[i]
    ensures SizeOf(fields) == size
  {
    OffsetsAre(fields, offs);
    MaxAlignIs(fields, a, w);
  }

  lemma {:induction false} OffsetIs(fields: seq<Field>, offs: seq<nat>, i: nat)
    requires |offs| == |fields| && i < |fields|
    requires forall j | 0 <= j < |fields| ::
      offs[j] == AlignUp(if j == 0 then 0 else offs[j - 1] + fields[j - 1].size, fields[j].align)
    ensures Offset(fields, i) == offs[i]
  {
    if i > 0 {
      OffsetIs(fields, offs, i - 1);
    }
  }

  /** Every field ends by the end of any later prefix of the struct. */
  lemma {:induction false} FieldEndsBy(fields: seq<Field>, i: nat, n: nat)
    requires i < n <= |fields|
    ensures Offset(fields, i) + fields[i].size <= EndOf(fields, n)
    decreases n
  {
    if i < n - 1 {
      FieldEndsBy(fields, i, n - 1);
    }
  }

  /**
   * The layout of a struct: every field aligned, in declaration order, not
   * overlapping the next one, and inside the struct's size.
   */
  lemma Layout(fields: seq<Field>)
    ensures forall i | 0 <= i < |fields| :: fields[i].align.Admits(Offset(fields, i))
    ensures forall i | 0 <= i < |fields| - 1 :: Offset(fields, i) + fields[i].size <= Offset(fields, i + 1)
    ensures forall i | 0 <= i < |fields| :: Offset(fields, i) + fields[i].size <= SizeOf(fields)
  {
    forall i | 0 <= i < |fields| - 1
      ensures Offset(fields, i) + fields[i].size <= Offset(fields, i + 1)
    {
      assert EndOf(fields, i + 1) == Offset(fields, i) + fields[i].size;
    }
    forall i | 0 <= i < |fields|
      ensures Offset(fields, i) + fields[i].size <= SizeOf(fields)
    {
      FieldEndsBy(fields, i, |fields|);
    }
  }

  /**
   * The padding bytes that follow each field: the gap up to the next field,
   * or up to the end of the struct after the last field.
   */
  function PaddingAfter(fields: seq<Field>, i: nat): (pad: nat)
    requires i < |fields|
    ensures Offset(fields, i) + fields[i].size + pad
      == if i + 1 < |fields| then Offset(fields, i + 1) else SizeOf(fields)
    ensures pad < (if i + 1 < |fields| then fields[i + 1].align else MaxAlign(fields, |fields|)).Bytes()
  {
    assert EndOf(fields, i + 1) == Offset(fields, i) + fields[i].size;
    Layout(fields);
    (if i + 1 < |fields| then Offset(fields, i + 1) else SizeOf(fields)) - (Offset(fields, i) + fields[i].size)
  }

  /** The padding after each field, read off a layout given as a list of offsets and a size. */
  lemma PaddingsAre(fields: seq<Field>, offs: seq<nat>, size: nat)
    requires |offs| == |fields|
    requires forall i | 0 <= i < |fields| :: Offset(fields, i) == offs[i]
    requires SizeOf(fields) == size
    ensures forall i | 0 <= i < |fields| ::
      offs[i] + fields[i].size + PaddingAfter(fields, i) == if i + 1 < |fields| then offs[i + 1] else size
  {
    forall i | 0 <= i < |fields|
      ensures offs[i] + fields[i].size + PaddingAfter(fields, i) == if i + 1 < |fields| then offs[i + 1] else size
    {
      if i + 1 < |fields| {
        assert Offset(fields, i + 1) == offs[i + 1];
      }
    }
  }

  /** How a variant of a field-less enum is declared: with `= value` or without. */
  datatype Discriminant = Implicit | Explicit(value: int)

  /** The discriminant Rust gives variant i of a field-less enum whose variants are declared as `decls`. */
  function DiscriminantOf(decls: seq<Discriminant>, i: nat): (d: int)
    requires i < |decls|
    ensures (forall j | 0 <= j <= i :: decls[j].Implicit?) ==> d == i
  {
    match decls[i]
    case Explicit(v) => v
    case Implicit => if i == 0 then 0 else DiscriminantOf(decls, i - 1) + 1
  }

  /** Value i of the table is the explicit discriminant of variant i, or one more than value i - 1. */
  predicate FollowsRule(decls: seq<Discriminant>, vals: seq<int>, i: nat)
    requires |vals| == |decls| && i < |decls|
  {
    match decls[i]
    case Explicit(v) => vals[i] == v
    case Implicit => vals[i] == if i == 0 then 0 else vals[i - 1] + 1
  }

  /**
   * A table of values is the discriminants of an enum declared as `decls`
   * when each value is the explicit one, or else the previous value plus
   * one (0 for the first variant).
   */
  lemma {:induction false} DiscriminantsAre(decls: seq<Discriminant>, vals: seq<int>)
    requires |vals| == |decls|
    requires forall i | 0 <= i < |decls| :: FollowsRule(decls, vals, i)
    ensures forall i | 0 <= i < |decls| :: DiscriminantOf(decls, i) == vals[i]
  {
    forall i | 0 <= i < |decls|
      ensures DiscriminantOf(decls, i) == vals[i]
    {
      DiscriminantIs(decls, vals, i);
    }
  }

  lemma {:induction false} DiscriminantIs(decls: seq<Discriminant>, vals: seq<int>, i: nat)
    requires |vals| == |decls| && i < |decls|
    requires forall j | 0 <= j < |decls| :: FollowsRule(decls, vals, j)
    ensures DiscriminantOf(decls, i) == vals[i]
  {
    assert FollowsRule(decls, vals, i);
    if i > 0 && decls[i].Implicit? {
      DiscriminantIs(decls, vals, i - 1);
    }
  }
}
