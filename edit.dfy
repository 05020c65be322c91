// The edit model: an `EditBuilder` collects (delete-range, insert-text) atoms,
// translating each new range through the atoms recorded before it, and
// `finish` turns the collected atoms into an `Edit`.

module Edits {
  import opened Wrappers
  import opened TextUnits

  /** Delete `delete`, then insert `insert` at its start. */
  datatype AtomEdit = AtomEdit(delete: TextRange, insert: string)

  /** The atoms in the order they were recorded. Atom `i`'s range is expressed
      in the coordinates of the text after atoms `0..i` have been applied. */
  datatype Edit = Edit(atoms: seq<AtomEdit>)

  /** `AtomEdit::apply_to_position`: where `pos` ends up once the atom is
      applied, or `None` when the atom deletes the text around it. */
  function ApplyToPosition(atom: AtomEdit, pos: nat): (r: Option<nat>)
    ensures r.None? <==> StrictlyInside(atom.delete, pos)
    ensures pos <= atom.delete.start ==> r == Some(pos)
    ensures atom.delete.start < pos && atom.delete.end <= pos ==>
              r == Some(pos - RangeLen(atom.delete) + |atom.insert|)
  {
    if atom.delete.start >= pos then Some(pos)
    else if atom.delete.end > pos then None
    else
      // the `TextUnit` subtraction cannot underflow: pos >= end >= end - start
      var kept: nat := pos - RangeLen(atom.delete);
      Some(kept + |atom.insert|)
  }

  /** Position mapping is monotone, so mapping a range keeps `start <= end`. */
  lemma ApplyToPositionMonotone(atom: AtomEdit, p: nat, q: nat)
    requires p <= q
    requires ApplyToPosition(atom, p).Some? && ApplyToPosition(atom, q).Some?
    ensures ApplyToPosition(atom, p).value <= ApplyToPosition(atom, q).value
  {
  }

  /** `AtomEdit::apply_to_range`: both endpoints mapped independently. */
  function ApplyToRange(atom: AtomEdit, range: TextRange): (r: Option<TextRange>)
    ensures r.None? <==> StrictlyInside(atom.delete, range.start) || StrictlyInside(atom.delete, range.end)
    ensures r.Some? ==> (Some(r.value.start) == ApplyToPosition(atom, range.start) &&
                         Some(r.value.end) == ApplyToPosition(atom, range.end))
  {
    match ApplyToPosition(atom, range.start)
    case None => None
    case Some(s) =>
      match ApplyToPosition(atom, range.end)
      case None => None
      case Some(e) =>
        ApplyToPositionMonotone(atom, range.start, range.end);
        Some(FromTo(s, e))
  }

  /** A range that contains the whole deletion (and does not end where the
      deletion starts) keeps its start and grows by the atom's length change. */
  lemma ApplyToRangeEnclosing(atom: AtomEdit, range: TextRange)
    requires range.start <= atom.delete.start < range.end
    requires atom.delete.end <= range.end
    ensures ApplyToRange(atom, range)
            == Some(FromTo(range.start, range.end - RangeLen(atom.delete) + |atom.insert|))
  {
  }

  /** The text an atom produces: the deleted range replaced by the insertion.
      This is the meaning of an atom used to state what position mapping
      preserves; `Edit::apply` itself is not part of this model. */
  function Spliced(text: string, atom: AtomEdit): (r: string)
    requires atom.delete.end <= |text|
    ensures |r| == |text| - RangeLen(atom.delete) + |atom.insert|
  {
    text[..atom.delete.start] + atom.insert + text[atom.delete.end..]
  }

  /** Position mapping agrees with the text: a position at or before the
      deletion keeps the text before it, a position after the deletion keeps
      the text after it. */
  lemma ApplyToPositionTracksText(text: string, atom: AtomEdit, pos: nat)
    requires atom.delete.end <= |text| && pos <= |text|
    requires ApplyToPosition(atom, pos).Some?
    ensures ApplyToPosition(atom, pos).value <= |Spliced(text, atom)|
    ensures pos <= atom.delete.start ==>
              Spliced(text, atom)[..ApplyToPosition(atom, pos).value] == text[..pos]
    ensures atom.delete.start < pos ==>
              Spliced(text, atom)[ApplyToPosition(atom, pos).value..] == text[pos..]
  {
    var t' := Spliced(text, atom);
    var q := ApplyToPosition(atom, pos).value;
    var s, e := atom.delete.start, atom.delete.end;
    if pos <= s {
      assert t'[..q] == text[..pos] by {
        assert t' == text[..s] + (atom.insert + text[e..]);
        assert text[..s][..pos] == text[..pos];
      }
    } else {
      assert t'[q..] == text[pos..] by {
        assert t' == (text[..s] + atom.insert) + text[e..];
        assert |text[..s] + atom.insert| + (pos - e) == q;
        assert text[e..][pos - e..] == text[pos..];
      }
    }
  }

  /** The range an atom list maps `range` to, atom by atom in recording order;
      `None` as soon as an endpoint falls strictly inside a deletion. */
  function TranslateThrough(atoms: seq<AtomEdit>, range: TextRange): Option<TextRange>
  {
    if atoms == [] then Some(range)
    else match TranslateThrough(atoms[..|atoms| - 1], range)
      case None => None
      case Some(r) => ApplyToRange(atoms[|atoms| - 1], r)
  }

  function TranslateThen(first: Option<TextRange>, atoms: seq<AtomEdit>): Option<TextRange> {
    match first
    case None => None
    case Some(r) => TranslateThrough(atoms, r)
  }

  /** Translating through `xs + ys` is translating through `xs`, then `ys`. */
  lemma {:induction false} TranslateThroughAppend(xs: seq<AtomEdit>, ys: seq<AtomEdit>, range: TextRange)
    ensures TranslateThrough(xs + ys, range) == TranslateThen(TranslateThrough(xs, range), ys)
  {
    if ys == [] {
      assert xs + ys == xs;
    } else {
      var ys' := ys[..|ys| - 1];
      assert (xs + ys)[..|xs + ys| - 1] == xs + ys';
      TranslateThroughAppend(xs, ys', range);
    }
  }

  /** Atom `i` conflicts with `range`: after the atoms before it, an endpoint
      of the translated range lies strictly inside atom `i`'s deletion. */
  predicate ConflictsAt(atoms: seq<AtomEdit>, range: TextRange, i: nat)
    requires i < |atoms|
  {
    var before := TranslateThrough(atoms[..i], range);
    before.Some? &&
    (StrictlyInside(atoms[i].delete, before.value.start) || StrictlyInside(atoms[i].delete, before.value.end))
  }

  /** Translation fails exactly when some atom conflicts with the range. */
  lemma {:induction false} TranslateFailsIff(atoms: seq<AtomEdit>, range: TextRange)
    ensures TranslateThrough(atoms, range).None? <==>
            exists i :: 0 <= i < |atoms| && ConflictsAt(atoms, range, i)
  {
    if atoms != [] {
      var n := |atoms| - 1;
      var init := atoms[..n];
      TranslateFailsIff(init, range);
      forall i | 0 <= i < n
        ensures ConflictsAt(atoms, range, i) == ConflictsAt(init, range, i)
      {
        assert atoms[..i] == init[..i];
      }
      assert atoms[..n] == init;
      if TranslateThrough(init, range).None? {
        var i :| 0 <= i < n && ConflictsAt(init, range, i);
        assert ConflictsAt(atoms, range, i);
      } else {
        assert ConflictsAt(atoms, range, n) <==> TranslateThrough(atoms, range).None?;
      }
    }
  }

  /** Once a prefix of the atoms conflicts, the whole list does. */
  lemma TranslateNoneExtends(atoms: seq<AtomEdit>, i: nat, range: TextRange)
    requires i <= |atoms|
    requires TranslateThrough(atoms[..i], range).None?
    ensures TranslateThrough(atoms, range).None?
  {
    TranslateThroughAppend(atoms[..i], atoms[i..], range);
    assert atoms[..i] + atoms[i..] == atoms;
  }

  /** The text an edit produces when its atoms are applied in recording
      order, each in the coordinates left by the ones before it; `None` if a
      range runs past the end of the text it applies to. */
  function SplicedAll(text: string, atoms: seq<AtomEdit>): Option<string>
    decreases atoms
  {
    if atoms == [] then Some(text)
    else if atoms[0].delete.end <= |text| then SplicedAll(Spliced(text, atoms[0]), atoms[1..])
    else None
  }

  /** `EditBuilder`: the atoms recorded so far. */
  class EditBuilder {
    var atoms: seq<AtomEdit>
    /** The ranges callers passed to `replace`, before translation. */
    ghost var requested: seq<TextRange>

    /** Each stored atom's range is its requested range translated through
        every atom stored before it, in order. */
    ghost predicate Valid()
      reads this
    {
      |requested| == |atoms| &&
      forall i :: 0 <= i < |atoms| ==> TranslateThrough(atoms[..i], requested[i]) == Some(atoms[i].delete)
    }

    /** `EditBuilder::new`. */
    constructor ()
      ensures Valid() && atoms == [] && requested == []
    {
      atoms := [];
      requested := [];
    }

    /** `EditBuilder::translate`. The source panics with "conflicting edits"
        where this returns `None`. */
    method Translate(range: TextRange) returns (r: Option<TextRange>)
      ensures r == TranslateThrough(atoms, range)
    {
      var current := range;
      for i := 0 to |atoms|
        invariant TranslateThrough(atoms[..i], range) == Some(current)
      {
        assert atoms[..i + 1][..i] == atoms[..i];
        var next := ApplyToRange(atoms[i], current);
        if next.None? {
          TranslateNoneExtends(atoms, i + 1, range);
          return None;
        }
        current := next.value;
      }
      assert atoms[..|atoms|] == atoms;
      return Some(current);
    }

    /** `EditBuilder::replace`: translate, then append one atom. On a conflict
        the source panics; here `ok` is false and nothing is recorded. */
    method Replace(range: TextRange, replacement: string) returns (ok: bool)
      requires Valid()
      modifies this
      ensures Valid()
      ensures ok <==> TranslateThrough(old(atoms), range).Some?
      ensures ok ==> atoms == old(atoms) + [AtomEdit(TranslateThrough(old(atoms), range).value, replacement)]
      ensures ok ==> requested == old(requested) + [range]
      ensures !ok ==> atoms == old(atoms) && requested == old(requested)
    {
      var translated := Translate(range);
      if translated.None? {
        return false;
      }
      ghost var before := atoms;
      atoms := atoms + [AtomEdit(translated.value, replacement)];
      requested := requested + [range];
      forall i | 0 <= i < |atoms|
        ensures TranslateThrough(atoms[..i], requested[i]) == Some(atoms[i].delete)
      {
        if i < |before| {
          assert atoms[..i] == before[..i];
        } else {
          assert atoms[..i] == before;
        }
      }
      return true;
    }

    /** `EditBuilder::delete`: a replace with empty text. */
    method Delete(range: TextRange) returns (ok: bool)
      requires Valid()
      modifies this
      ensures Valid()
      ensures ok <==> TranslateThrough(old(atoms), range).Some?
      ensures ok ==> atoms == old(atoms) + [AtomEdit(TranslateThrough(old(atoms), range).value, "")]
      ensures ok ==> requested == old(requested) + [range]
      ensures !ok ==> atoms == old(atoms) && requested == old(requested)
    {
      ok := Replace(range, "");
    }

    /** `EditBuilder::insert`: a replace of the empty range at `offset`. */
    method Insert(offset: nat, text: string) returns (ok: bool)
      requires Valid()
      modifies this
      ensures Valid()
      ensures ok <==> TranslateThrough(old(atoms), OffsetLen(offset, 0)).Some?
      ensures ok ==> atoms == old(atoms) + [AtomEdit(TranslateThrough(old(atoms), OffsetLen(offset, 0)).value, text)]
      ensures ok ==> requested == old(requested) + [OffsetLen(offset, 0)]
      ensures !ok ==> atoms == old(atoms) && requested == old(requested)
    {
      ok := Replace(OffsetLen(offset, 0), text);
    }

    /** `EditBuilder::finish`: the atoms, unchanged and in recording order. */
    method Finish() returns (e: Edit)
      ensures e.atoms == atoms
    {
      e := Edit(atoms);
    }
  }

  /** A single `replace([s, e), R)` on a fresh builder records one atom whose
      application turns `T` into `T[..s] + R + T[e..]`. */
  lemma SingleReplaceSplices(text: string, range: TextRange, replacement: string)
    requires range.end <= |text|
    ensures TranslateThrough([], range) == Some(range)
    ensures SplicedAll(text, [AtomEdit(range, replacement)])
            == Some(text[..range.start] + replacement + text[range.end..])
  {
    assert [AtomEdit(range, replacement)][1..] == [];
  }

  /** `EditBuilder::new`, one `replace([s, e), R)`, then `finish`: the edit
      holds the one atom, and on a text that contains the range it turns
      `T` into `T[..s] + R + T[e..]`. */
  method SingleReplace(text: string, range: TextRange, replacement: string) returns (e: Edit)
    ensures e.atoms == [AtomEdit(range, replacement)]
    ensures range.end <= |text| ==>
              SplicedAll(text, e.atoms) == Some(text[..range.start] + replacement + text[range.end..])
  {
    var builder := new EditBuilder();
    assert TranslateThrough([], range) == Some(range);
    var ok := builder.Replace(range, replacement);
    e := builder.Finish();
    if range.end <= |text| {
      SingleReplaceSplices(text, range, replacement);
    }
  }
}
