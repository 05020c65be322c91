// The comma-flip code action: find a comma leaf at the cursor, a sibling on
// each side of it, and propose an edit that exchanges their texts.

module CodeActions {
  import opened Wrappers
  import opened TextUnits
  import opened Syntax
  import opened Edits
  import Editor

  datatype Action = Applicable | Applied(edit: Edit)

  datatype Direction = Left | Right

  // ---------------------------------------------------------------- sibling walks

  /** Children of the parent still to come from `n` on, counting `n`. */
  function FollowingCount(n: SyntaxNodeRef): nat {
    match n.parent
    case None => 0
    case Some(p) => if n.index < ChildCount(p) then ChildCount(p) - n.index else 0
  }

  /** The unfold over a mutable slot: yield the slot's node, move the slot to
      its next sibling, stop when the slot is empty. */
  function UnfoldNext(slot: Option<SyntaxNodeRef>): seq<SyntaxNodeRef>
    decreases match slot case None => 0 case Some(n) => FollowingCount(n) + 1
  {
    match slot
    case None => []
    case Some(n) => [n] + UnfoldNext(NextSibling(n))
  }

  /** `siblings`: the unfold starting at `node.next_sibling()`. The direction
      is not used. */
  function Siblings(node: SyntaxNodeRef, direction: Direction): seq<SyntaxNodeRef> {
    UnfoldNext(NextSibling(node))
  }

  lemma {:induction false} UnfoldNextFrom(p: SyntaxNodeRef, i: nat)
    requires i < ChildCount(p)
    ensures |UnfoldNext(Some(Child(p, i)))| == ChildCount(p) - i
    ensures forall j :: 0 <= j < ChildCount(p) - i ==> UnfoldNext(Some(Child(p, i)))[j] == Child(p, i + j)
    decreases ChildCount(p) - i
  {
    if i + 1 < ChildCount(p) {
      UnfoldNextFrom(p, i + 1);
      var rest := UnfoldNext(Some(Child(p, i + 1)));
      assert NextSibling(Child(p, i)) == Some(Child(p, i + 1));
      assert UnfoldNext(Some(Child(p, i))) == [Child(p, i)] + rest;
      forall j | 0 < j < ChildCount(p) - i
        ensures UnfoldNext(Some(Child(p, i)))[j] == Child(p, i + j)
      {
        assert rest[j - 1] == Child(p, i + 1 + (j - 1));
      }
    } else {
      assert NextSibling(Child(p, i)).None?;
      assert UnfoldNext(Some(Child(p, i))) == [Child(p, i)];
    }
  }

  /** Every node of the unfold from child `i` is a later child of the same
      parent. */
  lemma UnfoldNextIndices(p: SyntaxNodeRef, i: nat)
    requires i < ChildCount(p)
    ensures forall m :: m in UnfoldNext(Some(Child(p, i))) ==>
              m.parent == Some(p) && i <= m.index < ChildCount(p) && m == Child(p, m.index)
  {
    var walk := UnfoldNext(Some(Child(p, i)));
    UnfoldNextFrom(p, i);
    forall m | m in walk
      ensures m.parent == Some(p) && i <= m.index < ChildCount(p) && m == Child(p, m.index)
    {
      var j :| 0 <= j < |walk| && walk[j] == m;
      assert m == Child(p, i + j);
    }
  }

  /** The siblings are the parent's children after `node`, nearest first,
      whatever the direction. */
  lemma SiblingsAreFollowing(node: SyntaxNodeRef, direction: Direction)
    requires node.parent.Some? && node.index < ChildCount(node.parent.value)
    ensures |Siblings(node, direction)| == ChildCount(node.parent.value) - node.index - 1
    ensures forall j :: 0 <= j < |Siblings(node, direction)| ==>
              Siblings(node, direction)[j] == Child(node.parent.value, node.index + 1 + j)
  {
    var p := node.parent.value;
    if node.index + 1 < ChildCount(p) {
      assert NextSibling(node) == Some(Child(p, node.index + 1));
      UnfoldNextFrom(p, node.index + 1);
    } else {
      assert NextSibling(node).None?;
    }
  }

  /** `generate` requires a step that cannot go on forever: each step lowers
      `rank`. */
  ghost predicate StepDecreases<T(!new)>(step: T -> Option<T>, rank: T -> nat) {
    forall x :: step(x).Some? ==> rank(step(x).value) < rank(x)
  }

  /** `generate(first, step)`: `first`, `step(first)`, ... up to the first `None`. */
  function Generate<T(!new)>(first: Option<T>, step: T -> Option<T>, rank: T -> nat): seq<T>
    requires StepDecreases(step, rank)
    decreases match first case None => 0 case Some(x) => rank(x) + 1
  {
    match first
    case None => []
    case Some(x) => [x] + Generate(step(x), step, rank)
  }

  /** The generated sequence is the chain of steps from `first`, and it stops
      exactly where a step yields `None`. */
  lemma {:induction false} GenerateChain<T(!new)>(first: Option<T>, step: T -> Option<T>, rank: T -> nat)
    requires StepDecreases(step, rank)
    ensures first.None? <==> Generate(first, step, rank) == []
    ensures first.Some? ==> Generate(first, step, rank)[0] == first.value
    ensures forall i :: 0 <= i < |Generate(first, step, rank)| - 1 ==>
              step(Generate(first, step, rank)[i]) == Some(Generate(first, step, rank)[i + 1])
    ensures Generate(first, step, rank) != [] ==>
              step(Generate(first, step, rank)[|Generate(first, step, rank)| - 1]).None?
    decreases match first case None => 0 case Some(x) => rank(x) + 1
  {
    match first
    case None =>
    case Some(x) =>
      GenerateChain(step(x), step, rank);
      var rest := Generate(step(x), step, rank);
      assert Generate(first, step, rank) == [x] + rest;
  }

  lemma NextSiblingDecreases()
    ensures StepDecreases(NextSibling, FollowingCount)
  {
  }

  /** `siblings2`: the same walk written with `generate`. */
  function Siblings2(node: SyntaxNodeRef, direction: Direction): seq<SyntaxNodeRef> {
    NextSiblingDecreases();
    Generate(NextSibling(node), NextSibling, FollowingCount)
  }

  lemma {:induction false} GenerateIsUnfold(slot: Option<SyntaxNodeRef>)
    ensures StepDecreases(NextSibling, FollowingCount)
    ensures Generate(slot, NextSibling, FollowingCount) == UnfoldNext(slot)
    decreases match slot case None => 0 case Some(n) => FollowingCount(n) + 1
  {
    NextSiblingDecreases();
    match slot
    case None =>
    case Some(n) => GenerateIsUnfold(NextSibling(n));
  }

  /** The two ways of writing the walk agree. */
  lemma SiblingsTwoWays(node: SyntaxNodeRef, direction: Direction)
    ensures Siblings2(node, direction) == Siblings(node, direction)
  {
    GenerateIsUnfold(NextSibling(node));
  }

  // ---------------------------------------------------------------- flip_comma

  predicate IsComma(n: SyntaxNodeRef) {
    Kind(n) == COMMA
  }

  /** `find_leaf_at_offset(..).find(|leaf| leaf.kind() == COMMA)`. */
  function CommaAt(file: Editor.File, offset: nat): (r: Option<SyntaxNodeRef>)
    ensures r.Some? ==> r.value in LeavesAt(file.root, offset) && Kind(r.value) == COMMA
    ensures r.Some? ==> exists k :: 0 <= k < |LeavesAt(file.root, offset)| &&
                          LeavesAt(file.root, offset)[k] == r.value &&
                          forall j :: 0 <= j < k ==> Kind(LeavesAt(file.root, offset)[j]) != COMMA
    ensures r.None? ==> forall n :: n in LeavesAt(file.root, offset) ==> Kind(n) != COMMA
  {
    Find(LeavesAt(file.root, offset), IsComma)
  }

  /** `non_trivia_sibling` as written: the first sibling whose kind IS trivia
      (`is_trivia` is a parameter). */
  function NonTriviaSibling(node: SyntaxNodeRef, direction: Direction, isTrivia: SyntaxKind -> bool): (r: Option<SyntaxNodeRef>)
    ensures r.Some? ==> r.value in Siblings(node, direction) && isTrivia(Kind(r.value))
    ensures r.Some? ==> exists k :: 0 <= k < |Siblings(node, direction)| &&
                          Siblings(node, direction)[k] == r.value &&
                          forall j :: 0 <= j < k ==> !isTrivia(Kind(Siblings(node, direction)[j]))
    ensures r.None? ==> forall m :: m in Siblings(node, direction) ==> !isTrivia(Kind(m))
  {
    Find(Siblings(node, direction), (m: SyntaxNodeRef) => isTrivia(Kind(m)))
  }

  /** The first atom of the flip: the left element's range gets the right
      element's text. */
  function FirstAtom(left: SyntaxNodeRef, right: SyntaxNodeRef): AtomEdit {
    AtomEdit(Range(left), NodeText(right))
  }

  /** `flip_comma`. The second `replace` goes through the builder, so its
      range is `right`'s range translated through the first atom. */
  method FlipComma(file: Editor.File, offset: nat, apply: bool, isTrivia: SyntaxKind -> bool) returns (r: Option<Action>)
    ensures CommaAt(file, offset).None? ==> r.None?
    ensures CommaAt(file, offset).Some? ==>
              var comma := CommaAt(file, offset).value;
              var left := NonTriviaSibling(comma, Left, isTrivia);
              var right := NonTriviaSibling(comma, Right, isTrivia);
              (r.Some? <==> left.Some? && right.Some?) &&
              (r.Some? && !apply ==> r.value == Applicable) &&
              (r.Some? && apply ==>
                 var first := FirstAtom(left.value, right.value);
                 TranslateThrough([first], Range(right.value)).Some? &&
                 r.value == Applied(Edit([first, AtomEdit(TranslateThrough([first], Range(right.value)).value,
                                                          NodeText(left.value))])))
  {
    var comma := CommaAt(file, offset);
    if comma.None? {
      return None;
    }
    var left := NonTriviaSibling(comma.value, Left, isTrivia);
    if left.None? {
      return None;
    }
    var right := NonTriviaSibling(comma.value, Right, isTrivia);
    if right.None? {
      return None;
    }
    if !apply {
      return Some(Applicable);
    }
    SameNodeTranslatesToItself(left.value, right.value);
    var e := BuildFlip(left.value, right.value);
    r := Some(Applied(e.value));
  }

  /** The builder steps of the flip: `replace(left, right's text)`, then
      `replace(right, left's text)`, whose range the builder translates
      through the first atom. `None` where that translation conflicts, where
      the source panics. */
  method BuildFlip(left: SyntaxNodeRef, right: SyntaxNodeRef) returns (e: Option<Edit>)
    ensures var second := TranslateThrough([FirstAtom(left, right)], Range(right));
            (e.Some? <==> second.Some?) &&
            (e.Some? ==> e.value == Edit([FirstAtom(left, right), AtomEdit(second.value, NodeText(left))]))
  {
    var edit := new EditBuilder();
    var ok := edit.Replace(Range(left), NodeText(right));
    assert ok && edit.atoms == [FirstAtom(left, right)];
    ok := edit.Replace(Range(right), NodeText(left));
    if !ok {
      return None;
    }
    var built := edit.Finish();
    return Some(built);
  }

  /** Replacing a range by a text of the same length moves neither endpoint. */
  lemma SameLengthKeepsRange(atom: AtomEdit)
    requires |atom.insert| == RangeLen(atom.delete)
    ensures ApplyToRange(atom, atom.delete) == Some(atom.delete)
  {
  }

  /** As written, both lookups walk the same following siblings for the same
      predicate, so `left` and `right` are one node, and `right`'s range
      translates to itself: the second `replace` never reports conflicting
      edits. */
  lemma SameNodeTranslatesToItself(left: SyntaxNodeRef, right: SyntaxNodeRef)
    requires left == right
    ensures TranslateThrough([FirstAtom(left, right)], Range(right)) == Some(Range(right))
  {
    TextLength(right.green);
    SameLengthKeepsRange(FirstAtom(left, right));
    assert [FirstAtom(left, right)][..0] == [];
  }

  lemma SiblingsIgnoreDirection(node: SyntaxNodeRef, isTrivia: SyntaxKind -> bool)
    ensures NonTriviaSibling(node, Left, isTrivia) == NonTriviaSibling(node, Right, isTrivia)
  {
  }

  /** A child of a located node is located under the same root. */
  lemma ChildLocated(p: SyntaxNodeRef, i: nat)
    requires Located(p) && i < ChildCount(p)
    ensures Located(Child(p, i)) && RootOf(Child(p, i)) == RootOf(p)
  {
  }

  /** The comma found at the cursor is a non-empty located leaf of the file's
      tree. */
  lemma CommaLocated(file: Editor.File, offset: nat)
    requires CommaAt(file, offset).Some?
    ensures var c := CommaAt(file, offset).value;
            Located(c) && RootOf(c) == Root(file.root) && IsLeafAt(c, offset)
  {
    PreorderLocated(Root(file.root));
  }

  /** A following sibling of a located node is located under the same root. */
  lemma SiblingLocated(node: SyntaxNodeRef, direction: Direction, m: SyntaxNodeRef)
    requires Located(node) && m in Siblings(node, direction)
    ensures Located(m) && RootOf(m) == RootOf(node)
  {
    assert NextSibling(node).Some?;
    RightWalkSides(node, m);
    ChildLocated(node.parent.value, m.index);
  }

  /** Two atoms applied in turn splice the text twice. */
  lemma SplicedTwo(t: string, a1: AtomEdit, a2: AtomEdit)
    requires a1.delete.end <= |t| && a2.delete.end <= |Spliced(t, a1)|
    ensures SplicedAll(t, [a1, a2]) == Some(Spliced(Spliced(t, a1), a2))
  {
    var t1 := Spliced(t, a1);
    assert [a1, a2][1..] == [a2];
    assert SplicedAll(t, [a1, a2]) == SplicedAll(t1, [a2]);
    assert [a2][1..] == [];
    assert SplicedAll(t1, [a2]) == SplicedAll(Spliced(t1, a2), []);
  }

  /** Rewriting a located node with its own text, twice, leaves the text of
      the file as it was. */
  lemma RewriteWithOwnText(root: Green, n: SyntaxNodeRef)
    requires Located(n) && RootOf(n) == Root(root)
    ensures SplicedAll(Text(root), [FirstAtom(n, n), AtomEdit(Range(n), NodeText(n))]) == Some(Text(root))
  {
    OwnTextSplice(root, n);
    SplicedTwo(Text(root), FirstAtom(n, n), FirstAtom(n, n));
  }

  /** One rewrite of a located node with its own text. */
  lemma OwnTextSplice(root: Green, n: SyntaxNodeRef)
    requires Located(n) && RootOf(n) == Root(root)
    ensures Range(n).end <= |Text(root)| && Spliced(Text(root), FirstAtom(n, n)) == Text(root)
  {
    LocatedText(n);
    SpliceOwnSlice(Text(root), FirstAtom(n, n));
  }

  /** Splicing in the very text a range already holds changes nothing. */
  lemma SpliceOwnSlice(t: string, atom: AtomEdit)
    requires atom.delete.end <= |t| && atom.insert == t[atom.delete.start..atom.delete.end]
    ensures Spliced(t, atom) == t
  {
    assert t == t[..atom.delete.start] + t[atom.delete.start..atom.delete.end] + t[atom.delete.end..];
  }

  /** As written, whenever the action applies, the edit it builds leaves the
      text as it was: `left` and `right` are one trivia node, rewritten with
      its own text twice. */
  lemma FlipCommaAsWrittenIsNoOp(file: Editor.File, offset: nat, isTrivia: SyntaxKind -> bool)
    requires CommaAt(file, offset).Some?
    requires NonTriviaSibling(CommaAt(file, offset).value, Left, isTrivia).Some?
    requires NonTriviaSibling(CommaAt(file, offset).value, Right, isTrivia).Some?
    ensures var comma := CommaAt(file, offset).value;
            var left := NonTriviaSibling(comma, Left, isTrivia).value;
            var right := NonTriviaSibling(comma, Right, isTrivia).value;
            left == right && isTrivia(Kind(left)) &&
            TranslateThrough([FirstAtom(left, right)], Range(right)) == Some(Range(right)) &&
            SplicedAll(Text(file.root), [FirstAtom(left, right), AtomEdit(Range(right), NodeText(left))])
              == Some(Text(file.root))
  {
    var comma := CommaAt(file, offset).value;
    var n := NonTriviaSibling(comma, Left, isTrivia).value;
    SiblingsIgnoreDirection(comma, isTrivia);
    CommaLocated(file, offset);
    SiblingLocated(comma, Left, n);
    SameNodeTranslatesToItself(n, n);
    RewriteWithOwnText(file.root, n);
  }

  // ---------------------------------------------------------------- the intended action

  function UnfoldPrev(slot: Option<SyntaxNodeRef>): seq<SyntaxNodeRef>
    decreases match slot case None => 0 case Some(n) => n.index + 1
  {
    match slot
    case None => []
    case Some(n) => [n] + UnfoldPrev(PrevSibling(n))
  }

  /** The walk the action evidently intends: away from `node` in `direction`,
      nearest first. */
  function SiblingsToward(node: SyntaxNodeRef, direction: Direction): seq<SyntaxNodeRef> {
    match direction
    case Left => UnfoldPrev(PrevSibling(node))
    case Right => UnfoldNext(NextSibling(node))
  }

  lemma {:induction false} UnfoldPrevFrom(p: SyntaxNodeRef, i: nat)
    requires i < ChildCount(p)
    ensures |UnfoldPrev(Some(Child(p, i)))| == i + 1
    ensures forall j :: 0 <= j <= i ==> UnfoldPrev(Some(Child(p, i)))[j] == Child(p, i - j)
  {
    if i > 0 {
      UnfoldPrevFrom(p, i - 1);
      var rest := UnfoldPrev(Some(Child(p, i - 1)));
      assert PrevSibling(Child(p, i)) == Some(Child(p, i - 1));
      assert UnfoldPrev(Some(Child(p, i))) == [Child(p, i)] + rest;
      forall j | 0 < j <= i
        ensures UnfoldPrev(Some(Child(p, i)))[j] == Child(p, i - j)
      {
        assert rest[j - 1] == Child(p, i - 1 - (j - 1));
      }
    }
  }

  /** Every node of the leftward unfold from child `i` is an earlier child of
      the same parent. */
  lemma UnfoldPrevIndices(p: SyntaxNodeRef, i: nat)
    requires i < ChildCount(p)
    ensures forall m :: m in UnfoldPrev(Some(Child(p, i))) ==>
              m.parent == Some(p) && m.index <= i && m == Child(p, m.index)
  {
    var walk := UnfoldPrev(Some(Child(p, i)));
    UnfoldPrevFrom(p, i);
    forall m | m in walk
      ensures m.parent == Some(p) && m.index <= i && m == Child(p, m.index)
    {
      var j :| 0 <= j < |walk| && walk[j] == m;
      assert m == Child(p, i - j);
    }
  }

  lemma LeftWalkSides(node: SyntaxNodeRef, m: SyntaxNodeRef)
    requires node.parent.Some? && node.index < ChildCount(node.parent.value)
    requires m in UnfoldPrev(PrevSibling(node))
    ensures m.parent == node.parent && m.index < node.index && m == Child(node.parent.value, m.index)
  {
    var p := node.parent.value;
    assert PrevSibling(node) == Some(Child(p, node.index - 1));
    UnfoldPrevIndices(p, node.index - 1);
  }

  lemma RightWalkSides(node: SyntaxNodeRef, m: SyntaxNodeRef)
    requires node.parent.Some? && node.index < ChildCount(node.parent.value)
    requires m in UnfoldNext(NextSibling(node))
    ensures m.parent == node.parent && node.index < m.index < ChildCount(node.parent.value)
    ensures m == Child(node.parent.value, m.index)
  {
    var p := node.parent.value;
    assert NextSibling(node) == Some(Child(p, node.index + 1));
    UnfoldNextIndices(p, node.index + 1);
  }

  /** Walking left yields earlier children of the parent, walking right later
      ones. */
  lemma SiblingsTowardSides(node: SyntaxNodeRef, direction: Direction, m: SyntaxNodeRef)
    requires node.parent.Some? && node.index < ChildCount(node.parent.value)
    requires m in SiblingsToward(node, direction)
    ensures m.parent == node.parent && m.index < ChildCount(node.parent.value)
    ensures m == Child(node.parent.value, m.index)
    ensures direction == Left ==> m.index < node.index
    ensures direction == Right ==> m.index > node.index
  {
    match direction
    case Left => LeftWalkSides(node, m);
    case Right => RightWalkSides(node, m);
  }

  /** The nearest sibling in `direction` that is not trivia. */
  function NonTriviaSiblingIntended(node: SyntaxNodeRef, direction: Direction, isTrivia: SyntaxKind -> bool): (r: Option<SyntaxNodeRef>)
    ensures r.Some? ==> r.value in SiblingsToward(node, direction) && !isTrivia(Kind(r.value))
    ensures r.Some? ==> exists j :: 0 <= j < |SiblingsToward(node, direction)| &&
                          SiblingsToward(node, direction)[j] == r.value &&
                          forall k :: 0 <= k < j ==> isTrivia(Kind(SiblingsToward(node, direction)[k]))
    ensures r.None? ==> forall m :: m in SiblingsToward(node, direction) ==> isTrivia(Kind(m))
  {
    var walk := SiblingsToward(node, direction);
    var i := FindIndex(walk, (m: SyntaxNodeRef) => !isTrivia(Kind(m)));
    if i.None? then None else Some(walk[i.value])
  }

  /** Conversely, a non-trivia node with only trivia before it in the walk is
      the one the lookup returns. */
  lemma NonTriviaIntendedAt(node: SyntaxNodeRef, direction: Direction, isTrivia: SyntaxKind -> bool, k: nat)
    requires k < |SiblingsToward(node, direction)|
    requires !isTrivia(Kind(SiblingsToward(node, direction)[k]))
    requires forall j :: 0 <= j < k ==> isTrivia(Kind(SiblingsToward(node, direction)[j]))
    ensures NonTriviaSiblingIntended(node, direction, isTrivia) == Some(SiblingsToward(node, direction)[k])
  {
    var walk := SiblingsToward(node, direction);
    var i := FindIndex(walk, (m: SyntaxNodeRef) => !isTrivia(Kind(m)));
    assert i == Some(k);
  }

  /** `right`'s range once the left element has been replaced by `right`'s
      text: shifted by the change in length, size unchanged. */
  function ShiftedRight(left: SyntaxNodeRef, right: SyntaxNodeRef): TextRange
    requires Range(left).end <= right.start
  {
    OffsetLen(right.start - Len(left.green) + |NodeText(right)|, Len(right.green))
  }

  /** The edit the intended action builds, for a left element that ends before
      the right one starts. */
  function SwapAtoms(left: SyntaxNodeRef, right: SyntaxNodeRef): seq<AtomEdit> {
    if Range(left).end < right.start then
      [FirstAtom(left, right), AtomEdit(ShiftedRight(left, right), NodeText(left))]
    else
      []
  }

  /** When the left element ends before the right one starts, `right`'s range
      translates through the first atom without conflict, to the shifted
      range. */
  lemma TranslateShift(left: SyntaxNodeRef, right: SyntaxNodeRef)
    requires Range(left).end < right.start
    ensures TranslateThrough([FirstAtom(left, right)], Range(right)) == Some(ShiftedRight(left, right))
    ensures SwapAtoms(left, right) == [FirstAtom(left, right), AtomEdit(ShiftedRight(left, right), NodeText(left))]
  {
    assert [FirstAtom(left, right)][..0] == [];
  }

  /** Cutting a concatenation inside its second part. */
  lemma SliceConcat(x: string, y: string, m: nat)
    requires m <= |y|
    ensures (x + y)[..|x| + m] == x + y[..m]
    ensures (x + y)[|x| + m..] == y[m..]
  {
  }

  /** A splice wholly inside the second part of a concatenation keeps the
      first part. */
  lemma SpliceInSecond(head: string, tail: string, atom: AtomEdit, before: string, after: string)
    requires |head| <= atom.delete.start && atom.delete.end <= |head| + |tail|
    requires before == tail[..atom.delete.start - |head|] && after == tail[atom.delete.end - |head|..]
    ensures Spliced(head + tail, atom) == head + before + atom.insert + after
  {
    SliceConcat(head, tail, atom.delete.start - |head|);
    SliceConcat(head, tail, atom.delete.end - |head|);
  }

  /** Slices of a suffix are slices of the whole. */
  lemma SliceOfSuffix(t: string, i: nat, j: nat)
    requires i <= j <= |t|
    ensures t[i..][..j - i] == t[i..j]
    ensures t[i..][j - i..] == t[j..]
  {
  }

  /** Replacing `l` by `x`, then the shifted `r` by `y`, exchanges the two
      slices and keeps the text between and around them. */
  lemma SwapOnText(t: string, l: TextRange, r: TextRange, x: string, y: string)
    requires l.end < r.start && r.end <= |t|
    ensures SplicedAll(t, [AtomEdit(l, x), AtomEdit(OffsetLen(r.start - RangeLen(l) + |x|, RangeLen(r)), y)])
              == Some(t[..l.start] + x + t[l.end..r.start] + y + t[r.end..])
  {
    var a1 := AtomEdit(l, x);
    var a2 := AtomEdit(OffsetLen(r.start - RangeLen(l) + |x|, RangeLen(r)), y);
    SwapSecondAtom(t, l, r, x, y);
    SplicedTwo(t, a1, a2);
  }

  /** The second atom of the swap, applied after the first, replaces the
      right range's text where the first atom has moved it. */
  lemma SwapSecondAtom(t: string, l: TextRange, r: TextRange, x: string, y: string)
    requires l.end < r.start && r.end <= |t|
    ensures var a2 := AtomEdit(OffsetLen(r.start - RangeLen(l) + |x|, RangeLen(r)), y);
            a2.delete.end <= |Spliced(t, AtomEdit(l, x))| &&
            Spliced(Spliced(t, AtomEdit(l, x)), a2) == t[..l.start] + x + t[l.end..r.start] + y + t[r.end..]
  {
    var a2 := AtomEdit(OffsetLen(r.start - RangeLen(l) + |x|, RangeLen(r)), y);
    var head := t[..l.start] + x;
    var tail := t[l.end..];
    assert Spliced(t, AtomEdit(l, x)) == head + tail;
    assert a2.delete.start - |head| == r.start - l.end && a2.delete.end - |head| == r.end - l.end;
    SliceOfSuffix(t, l.end, r.start);
    SliceOfSuffix(t, l.end, r.end);
    SpliceInSecond(head, tail, a2, t[l.end..r.start], t[r.end..]);
  }

  /** The two atoms exchange the texts of the elements and keep every other
      character of the text. */
  lemma SwapSplices(t: string, left: SyntaxNodeRef, right: SyntaxNodeRef)
    requires Range(left).end < right.start && Range(right).end <= |t|
    ensures SplicedAll(t, SwapAtoms(left, right))
              == Some(t[..left.start] + NodeText(right) + t[Range(left).end..right.start] + NodeText(left) + t[Range(right).end..])
  {
    var l, r, x, y := Range(left), Range(right), NodeText(right), NodeText(left);
    assert ShiftedRight(left, right) == OffsetLen(r.start - RangeLen(l) + |x|, RangeLen(r));
    assert SwapAtoms(left, right) == [AtomEdit(l, x), AtomEdit(OffsetLen(r.start - RangeLen(l) + |x|, RangeLen(r)), y)];
    SwapOnText(t, l, r, x, y);
  }

  /** Around a non-empty located comma, the intended lookup finds a left
      element that ends before the comma and a right one that starts after
      it, both located under the comma's root. */
  lemma SidesOfComma(comma: SyntaxNodeRef, left: SyntaxNodeRef, right: SyntaxNodeRef)
    requires Located(comma) && Len(comma.green) > 0
    requires left in SiblingsToward(comma, Left) && right in SiblingsToward(comma, Right)
    ensures Range(left).end <= comma.start && Range(comma).end <= right.start
    ensures Located(left) && RootOf(left) == RootOf(comma)
    ensures Located(right) && RootOf(right) == RootOf(comma)
  {
    assert NextSibling(comma).Some?;
    var p := comma.parent.value;
    SiblingsTowardSides(comma, Left, left);
    SiblingsTowardSides(comma, Right, right);
    ChildWithinParent(p, comma.index);
    ChildWithinParent(p, right.index);
    ChildLocated(p, left.index);
    ChildLocated(p, right.index);
  }

  lemma IntendedSides(file: Editor.File, offset: nat, isTrivia: SyntaxKind -> bool)
    requires CommaAt(file, offset).Some?
    requires NonTriviaSiblingIntended(CommaAt(file, offset).value, Left, isTrivia).Some?
    requires NonTriviaSiblingIntended(CommaAt(file, offset).value, Right, isTrivia).Some?
    ensures var comma := CommaAt(file, offset).value;
            var left := NonTriviaSiblingIntended(comma, Left, isTrivia).value;
            var right := NonTriviaSiblingIntended(comma, Right, isTrivia).value;
            Range(left).end <= comma.start && Range(comma).end <= right.start && comma.start < Range(comma).end &&
            Located(left) && RootOf(left) == Root(file.root) &&
            Located(right) && RootOf(right) == Root(file.root)
  {
    var comma := CommaAt(file, offset).value;
    CommaLocated(file, offset);
    SidesOfComma(comma, NonTriviaSiblingIntended(comma, Left, isTrivia).value,
                 NonTriviaSiblingIntended(comma, Right, isTrivia).value);
  }

  lemma IntendedOrder(file: Editor.File, offset: nat, isTrivia: SyntaxKind -> bool)
    requires CommaAt(file, offset).Some?
    requires NonTriviaSiblingIntended(CommaAt(file, offset).value, Left, isTrivia).Some?
    requires NonTriviaSiblingIntended(CommaAt(file, offset).value, Right, isTrivia).Some?
    ensures Range(NonTriviaSiblingIntended(CommaAt(file, offset).value, Left, isTrivia).value).end
              < NonTriviaSiblingIntended(CommaAt(file, offset).value, Right, isTrivia).value.start
  {
    IntendedSides(file, offset, isTrivia);
  }

  /** `flip_comma` with the sibling lookup it evidently intends. */
  method FlipCommaIntended(file: Editor.File, offset: nat, apply: bool, isTrivia: SyntaxKind -> bool) returns (r: Option<Action>)
    ensures CommaAt(file, offset).None? ==> r.None?
    ensures CommaAt(file, offset).Some? ==>
              var comma := CommaAt(file, offset).value;
              var left := NonTriviaSiblingIntended(comma, Left, isTrivia);
              var right := NonTriviaSiblingIntended(comma, Right, isTrivia);
              (r.Some? <==> left.Some? && right.Some?) &&
              (r.Some? && !apply ==> r.value == Applicable) &&
              (r.Some? && apply ==> r.value == Applied(Edit(SwapAtoms(left.value, right.value))))
  {
    var comma := CommaAt(file, offset);
    if comma.None? {
      return None;
    }
    var left := NonTriviaSiblingIntended(comma.value, Left, isTrivia);
    if left.None? {
      return None;
    }
    var right := NonTriviaSiblingIntended(comma.value, Right, isTrivia);
    if right.None? {
      return None;
    }
    if !apply {
      return Some(Applicable);
    }
    IntendedOrder(file, offset, isTrivia);
    TranslateShift(left.value, right.value);
    var e := BuildFlip(left.value, right.value);
    r := Some(Applied(e.value));
  }

  /** The intended action exchanges the texts of the two elements and keeps
      everything else, the comma and the trivia around it included. */
  lemma FlipCommaIntendedSwaps(file: Editor.File, offset: nat, isTrivia: SyntaxKind -> bool)
    requires CommaAt(file, offset).Some?
    requires NonTriviaSiblingIntended(CommaAt(file, offset).value, Left, isTrivia).Some?
    requires NonTriviaSiblingIntended(CommaAt(file, offset).value, Right, isTrivia).Some?
    ensures var comma := CommaAt(file, offset).value;
            var left := NonTriviaSiblingIntended(comma, Left, isTrivia).value;
            var right := NonTriviaSiblingIntended(comma, Right, isTrivia).value;
            var t := Text(file.root);
            Range(left).end < right.start && Range(right).end <= |t| &&
            t[left.start..Range(left).end] == NodeText(left) &&
            t[right.start..Range(right).end] == NodeText(right) &&
            SplicedAll(t, SwapAtoms(left, right))
              == Some(t[..left.start] + NodeText(right) + t[Range(left).end..right.start] + NodeText(left) + t[Range(right).end..])
  {
    var comma := CommaAt(file, offset).value;
    var left := NonTriviaSiblingIntended(comma, Left, isTrivia).value;
    var right := NonTriviaSiblingIntended(comma, Right, isTrivia).value;
    IntendedSides(file, offset, isTrivia);
    LocatedText(left);
    LocatedText(right);
    SwapSplices(Text(file.root), left, right);
  }

  // ---------------------------------------------------------------- an instance

  /** The argument list `(a, b)`, for one-character names `a` and `b`, as a
      flat tree. */
  function Pair(a: char, b: char): Green {
    Node(ROOT, [Token(L_PAREN, "("), Token(IDENT, [a]), Token(COMMA, ","),
                Token(WHITESPACE, " "), Token(IDENT, [b]), Token(R_PAREN, ")")])
  }

  predicate IsWhitespaceOrComment(k: SyntaxKind) {
    k == WHITESPACE || k == COMMENT
  }

  lemma {:induction false} LenSeqOfUnitTokens(cs: seq<Green>, i: nat)
    requires i <= |cs| && forall j :: 0 <= j < |cs| ==> Len(cs[j]) == 1
    ensures LenSeq(cs[..i]) == i
  {
    if i > 0 {
      LenSeqOfUnitTokens(cs, i - 1);
      assert cs[..i] == cs[..i - 1] + [cs[i - 1]];
      LenSeqAppend(cs[..i - 1], [cs[i - 1]]);
      assert [cs[i - 1]][1..] == [];
    }
  }

  /** Child `i` of the pair's root is its `i`-th token, at offset `i`. */
  lemma PairChild(a: char, b: char, i: nat)
    requires i < 6
    ensures ChildCount(Root(Pair(a, b))) == 6
    ensures Child(Root(Pair(a, b)), i) == SyntaxNodeRef(Pair(a, b).children[i], i, Some(Root(Pair(a, b))), i)
    ensures ChildCount(Child(Root(Pair(a, b)), i)) == 0 && Len(Pair(a, b).children[i]) == 1
  {
    var cs := Pair(a, b).children;
    assert forall j :: 0 <= j < |cs| ==> Len(cs[j]) == 1;
    LenSeqOfUnitTokens(cs, i);
  }

  /** The preorder of a node whose children are all leaves lists those
      children after the node. */
  lemma {:induction false} FlatPreorderFrom(n: SyntaxNodeRef, i: nat)
    requires i <= ChildCount(n)
    requires forall j :: 0 <= j < ChildCount(n) ==> ChildCount(Child(n, j)) == 0
    ensures PreorderFrom(n, i) == Children(n)[i..]
    decreases ChildCount(n) - i
  {
    if i < ChildCount(n) {
      FlatPreorderFrom(n, i + 1);
      assert Preorder(Child(n, i)) == [Child(n, i)];
      assert Children(n)[i..] == [Child(n, i)] + Children(n)[i + 1..];
    }
  }

  lemma PairPreorder(a: char, b: char)
    ensures Preorder(Root(Pair(a, b))) == [Root(Pair(a, b))] + Children(Root(Pair(a, b)))
  {
    forall j | 0 <= j < 6
      ensures ChildCount(Child(Root(Pair(a, b)), j)) == 0
    {
      PairChild(a, b, j);
    }
    PairChild(a, b, 0);
    FlatPreorderFrom(Root(Pair(a, b)), 0);
  }

  /** Only the third token of the pair is a comma. */
  lemma PairCommaIndex(a: char, b: char, i: nat)
    requires i < 6
    ensures Pair(a, b).children[i].kind == COMMA <==> i == 2
  {
    var cs := Pair(a, b).children;
    if i == 0 {
      assert cs[0].kind == L_PAREN;
    } else if i == 1 {
      assert cs[1].kind == IDENT;
    } else if i == 3 {
      assert cs[3].kind == WHITESPACE;
    } else if i == 4 {
      assert cs[4].kind == IDENT;
    } else if i == 5 {
      assert cs[5].kind == R_PAREN;
    }
  }

  lemma PairComma(a: char, b: char)
    ensures ChildCount(Root(Pair(a, b))) == 6
    ensures CommaAt(Editor.File(Pair(a, b), []), 3) == Some(Child(Root(Pair(a, b)), 2))
  {
    var root := Root(Pair(a, b));
    PairPreorder(a, b);
    PairChild(a, b, 2);
    assert Child(root, 2) in LeavesAt(Pair(a, b), 3) by {
      assert Preorder(root)[3] == Child(root, 2);
    }
    var c := CommaAt(Editor.File(Pair(a, b), []), 3).value;
    PairOnlyComma(a, b, c);
  }

  /** The only comma node in the pair's tree is its third child. */
  lemma PairOnlyComma(a: char, b: char, c: SyntaxNodeRef)
    requires c in Preorder(Root(Pair(a, b))) && Kind(c) == COMMA
    ensures c == Child(Root(Pair(a, b)), 2)
  {
    var root := Root(Pair(a, b));
    PairPreorder(a, b);
    var k :| 0 <= k < 7 && Preorder(root)[k] == c;
    assert k != 0;
    var i := k - 1;
    assert c == Child(root, i);
    PairChild(a, b, i);
    PairCommaIndex(a, b, i);
  }

  lemma PairText(a: char, b: char)
    ensures Text(Pair(a, b)) == "(" + [a] + ", " + [b] + ")"
  {
    var cs := Pair(a, b).children;
    assert TextSeq(cs[5..]) == ")" by {
      assert cs[5..][1..] == [];
    }
    assert TextSeq(cs[4..]) == [b] + ")" by {
      assert cs[4..][1..] == cs[5..];
    }
    assert TextSeq(cs[3..]) == " " + [b] + ")" by {
      assert cs[3..][1..] == cs[4..];
    }
    assert TextSeq(cs[2..]) == ", " + [b] + ")" by {
      assert cs[2..][1..] == cs[3..];
    }
    assert TextSeq(cs[1..]) == [a] + ", " + [b] + ")" by {
      assert cs[1..][1..] == cs[2..];
    }
    assert TextSeq(cs) == "(" + TextSeq(cs[1..]);
  }

  /** As written, both lookups from the comma of `(a, b)` give the space. */
  lemma PairAsWritten(a: char, b: char)
    ensures ChildCount(Root(Pair(a, b))) == 6
    ensures NonTriviaSibling(Child(Root(Pair(a, b)), 2), Left, IsWhitespaceOrComment) == Some(Child(Root(Pair(a, b)), 3))
    ensures NonTriviaSibling(Child(Root(Pair(a, b)), 2), Right, IsWhitespaceOrComment) == Some(Child(Root(Pair(a, b)), 3))
  {
    var root := Root(Pair(a, b));
    PairChild(a, b, 3);
    SiblingsAreFollowing(Child(root, 2), Left);
    var after := Siblings(Child(root, 2), Left);
    assert after[0] == Child(root, 3);
    assert IsWhitespaceOrComment(Kind(after[0]));
  }

  /** The intended lookups from the comma of `(a, b)` give `a` and `b`. */
  lemma PairIntendedLeft(a: char, b: char)
    ensures ChildCount(Root(Pair(a, b))) == 6
    ensures NonTriviaSiblingIntended(Child(Root(Pair(a, b)), 2), Left, IsWhitespaceOrComment) == Some(Child(Root(Pair(a, b)), 1))
  {
    var root := Root(Pair(a, b));
    PairChild(a, b, 1);
    UnfoldPrevFrom(root, 1);
    var before := SiblingsToward(Child(root, 2), Left);
    assert before[0] == Child(root, 1);
    assert !IsWhitespaceOrComment(Kind(before[0]));
  }

  lemma PairIntendedRight(a: char, b: char)
    ensures ChildCount(Root(Pair(a, b))) == 6
    ensures NonTriviaSiblingIntended(Child(Root(Pair(a, b)), 2), Right, IsWhitespaceOrComment) == Some(Child(Root(Pair(a, b)), 4))
  {
    var root := Root(Pair(a, b));
    PairChild(a, b, 3);
    PairChild(a, b, 4);
    SiblingsAreFollowing(Child(root, 2), Right);
    var after := SiblingsToward(Child(root, 2), Right);
    assert after[0] == Child(root, 3) && after[1] == Child(root, 4);
    NonTriviaIntendedAt(Child(root, 2), Right, IsWhitespaceOrComment, 1);
  }

  /** The intended edit turns `(a, b)` into `(b, a)`. */
  lemma PairSwap(a: char, b: char)
    ensures ChildCount(Root(Pair(a, b))) == 6
    ensures SplicedAll(Text(Pair(a, b)), SwapAtoms(Child(Root(Pair(a, b)), 1), Child(Root(Pair(a, b)), 4)))
            == Some("(" + [b] + ", " + [a] + ")")
  {
    var root := Root(Pair(a, b));
    PairText(a, b);
    PairChild(a, b, 1);
    PairChild(a, b, 4);
    var t := Text(Pair(a, b));
    var left, right := Child(root, 1), Child(root, 4);
    assert NodeText(left) == [a] && NodeText(right) == [b];
    assert Range(left).end == 2 && right.start == 4 && Range(right).end == 5;
    SwapSplices(t, left, right);
    assert t[..1] + [b] + t[2..4] + [a] + t[5..] == "(" + [b] + ", " + [a] + ")";
  }

  /** On `(a, b)` with the cursor after the comma, the action as written
      picks the space on both sides, so its edit leaves the text as it is;
      the intended lookup picks `a` and `b`, and its edit gives `(b, a)`. */
  lemma FlipCommaOnPair(a: char, b: char)
    ensures Text(Pair(a, b)) == "(" + [a] + ", " + [b] + ")"
    ensures ChildCount(Root(Pair(a, b))) == 6
    ensures var file := Editor.File(Pair(a, b), []);
            var root := Root(Pair(a, b));
            CommaAt(file, 3) == Some(Child(root, 2)) &&
            NonTriviaSibling(Child(root, 2), Left, IsWhitespaceOrComment) == Some(Child(root, 3)) &&
            NonTriviaSibling(Child(root, 2), Right, IsWhitespaceOrComment) == Some(Child(root, 3)) &&
            NonTriviaSiblingIntended(Child(root, 2), Left, IsWhitespaceOrComment) == Some(Child(root, 1)) &&
            NonTriviaSiblingIntended(Child(root, 2), Right, IsWhitespaceOrComment) == Some(Child(root, 4)) &&
            SplicedAll(Text(Pair(a, b)), SwapAtoms(Child(root, 1), Child(root, 4))) == Some("(" + [b] + ", " + [a] + ")")
  {
    PairText(a, b);
    PairComma(a, b);
    PairAsWritten(a, b);
    PairIntendedLeft(a, b);
    PairIntendedRight(a, b);
    PairSwap(a, b);
  }
}
