// A minimal syntax tree: the immutable content tree (kinds, children and the
// text of tokens, no positions) and the located view over it (a content node
// with its absolute start offset and a link to its located parent).
//
// The navigation primitives the editor calls (`parent`, `children`,
// `next_sibling`, `range`, `text`, `walk::preorder`, `find_leaf_at_offset`)
// are defined here on that view. Their implementations in the parser library
// are not part of this model; these definitions are the assumptions the
// queries are proved under.

module Syntax {
  import opened Wrappers
  import opened TextUnits

  /** The kinds the queries single out; every other kind is `OtherKind`. */
  datatype SyntaxKind =
    | ERROR | WHITESPACE | COMMENT | DOC_COMMENT
    | STRING | RAW_STRING | RAW_BYTE_STRING | BYTE_STRING
    | ATTR | NAME_REF | NAME | IDENT
    | INT_NUMBER | FLOAT_NUMBER | CHAR | BYTE | LIFETIME
    | L_CURLY | R_CURLY | L_BRACK | R_BRACK | L_PAREN | R_PAREN | L_ANGLE | R_ANGLE
    | COMMA | COLON | FN_DEF | ROOT
    | OtherKind(id: nat)

  /** Content tree: a token carries its text, a node its ordered children. */
  datatype Green =
    | Token(kind: SyntaxKind, text: string)
    | Node(kind: SyntaxKind, children: seq<Green>)

  function ChildrenOf(g: Green): seq<Green> {
    match g
    case Token(_, _) => []
    case Node(_, cs) => cs
  }

  /** A node's length is the sum of its children's lengths. */
  function Len(g: Green): nat
    decreases g, 1
  {
    match g
    case Token(_, t) => |t|
    case Node(_, cs) => LenSeq(cs)
  }

  function LenSeq(cs: seq<Green>): nat
    decreases cs, 0
  {
    if cs == [] then 0 else Len(cs[0]) + LenSeq(cs[1..])
  }

  /** The text of a subtree: its tokens' texts, in order. */
  function Text(g: Green): string
    decreases g, 1
  {
    match g
    case Token(_, t) => t
    case Node(_, cs) => TextSeq(cs)
  }

  function TextSeq(cs: seq<Green>): string
    decreases cs, 0
  {
    if cs == [] then [] else Text(cs[0]) + TextSeq(cs[1..])
  }

  lemma {:induction false} LenSeqAppend(a: seq<Green>, b: seq<Green>)
    ensures LenSeq(a + b) == LenSeq(a) + LenSeq(b)
  {
    if a != [] {
      assert (a + b)[1..] == a[1..] + b;
      LenSeqAppend(a[1..], b);
    } else {
      assert a + b == b;
    }
  }

  lemma {:induction false} TextSeqAppend(a: seq<Green>, b: seq<Green>)
    ensures TextSeq(a + b) == TextSeq(a) + TextSeq(b)
  {
    if a != [] {
      assert (a + b)[1..] == a[1..] + b;
      TextSeqAppend(a[1..], b);
    } else {
      assert a + b == b;
    }
  }

  /** The tree's lengths count the characters of its text. */
  lemma {:induction false} TextLength(g: Green)
    ensures |Text(g)| == Len(g)
    decreases g, 1
  {
    match g
    case Token(_, _) =>
    case Node(_, cs) => TextSeqLength(cs);
  }

  lemma {:induction false} TextSeqLength(cs: seq<Green>)
    ensures |TextSeq(cs)| == LenSeq(cs)
    decreases cs, 0
  {
    if cs != [] {
      TextLength(cs[0]);
      TextSeqLength(cs[1..]);
    }
  }

  /** Located view (`SyntaxNodeRef`): a content node, its absolute start
      offset, its located parent and its index among the parent's children. */
  datatype SyntaxNodeRef = SyntaxNodeRef(green: Green, start: nat, parent: Option<SyntaxNodeRef>, index: nat)

  /** The located root of a content tree starts at offset 0. */
  function Root(g: Green): SyntaxNodeRef {
    SyntaxNodeRef(g, 0, None, 0)
  }

  function Kind(n: SyntaxNodeRef): SyntaxKind {
    n.green.kind
  }

  /** `range()`: `[start, start + length)`. */
  function Range(n: SyntaxNodeRef): TextRange {
    OffsetLen(n.start, Len(n.green))
  }

  /** `text()`: the text the node covers. */
  function NodeText(n: SyntaxNodeRef): string {
    Text(n.green)
  }

  function ChildCount(n: SyntaxNodeRef): nat {
    |ChildrenOf(n.green)|
  }

  /** Child `i` starts at the parent's start plus the lengths of the earlier
      siblings. */
  function Child(n: SyntaxNodeRef, i: nat): (c: SyntaxNodeRef)
    requires i < ChildCount(n)
    ensures c.green < n.green
  {
    var cs := n.green.children;
    SyntaxNodeRef(cs[i], n.start + LenSeq(cs[..i]), Some(n), i)
  }

  /** `children()`, in order. */
  function Children(n: SyntaxNodeRef): (r: seq<SyntaxNodeRef>)
    ensures |r| == ChildCount(n)
    ensures forall i :: 0 <= i < |r| ==> r[i] == Child(n, i)
  {
    seq(ChildCount(n), i requires 0 <= i < ChildCount(n) => Child(n, i))
  }

  /** `parent()`. */
  function Parent(n: SyntaxNodeRef): Option<SyntaxNodeRef> {
    n.parent
  }

  /** `next_sibling()`: the parent's next child, if any. */
  function NextSibling(n: SyntaxNodeRef): (r: Option<SyntaxNodeRef>)
    ensures r.Some? ==> r.value.parent == n.parent && r.value.index == n.index + 1
  {
    match n.parent
    case None => None
    case Some(p) => if n.index + 1 < ChildCount(p) then Some(Child(p, n.index + 1)) else None
  }

  /** `prev_sibling()`: the parent's previous child, if any. */
  function PrevSibling(n: SyntaxNodeRef): (r: Option<SyntaxNodeRef>)
    ensures r.Some? ==> r.value.parent == n.parent && r.value.index + 1 == n.index
  {
    match n.parent
    case None => None
    case Some(p) => if 0 < n.index <= ChildCount(p) then Some(Child(p, n.index - 1)) else None
  }

  /** A located node is consistent with its parent chain: it is the child of
      its parent at its index. */
  ghost predicate Located(n: SyntaxNodeRef)
    decreases n
  {
    match n.parent
    case None => true
    case Some(p) => Located(p) && n.index < ChildCount(p) && n == Child(p, n.index)
  }

  /** The root reached by following parent links. */
  function RootOf(n: SyntaxNodeRef): SyntaxNodeRef
    decreases n
  {
    match n.parent
    case None => n
    case Some(p) => RootOf(p)
  }

  /** Child `i` lies inside its parent's range, and the siblings before it end
      where it starts. */
  lemma ChildWithinParent(n: SyntaxNodeRef, i: nat)
    requires i < ChildCount(n)
    ensures n.start <= Child(n, i).start
    ensures Range(Child(n, i)).end <= Range(n).end
    ensures forall j :: 0 <= j < i ==> Range(Child(n, j)).end <= Child(n, i).start
  {
    var cs := n.green.children;
    assert cs == cs[..i] + [cs[i]] + cs[i + 1..];
    LenSeqAppend(cs[..i] + [cs[i]], cs[i + 1..]);
    LenSeqAppend(cs[..i], [cs[i]]);
    assert LenSeq([cs[i]]) == Len(cs[i]) by {
      assert [cs[i]][1..] == [];
    }
    forall j | 0 <= j < i
      ensures Range(Child(n, j)).end <= Child(n, i).start
    {
      assert cs[..i] == cs[..j] + [cs[j]] + cs[j + 1..i];
      LenSeqAppend(cs[..j] + [cs[j]], cs[j + 1..i]);
      LenSeqAppend(cs[..j], [cs[j]]);
      assert [cs[j]][1..] == [];
    }
  }

  /** A child's text sits in its parent's text at the child's offset
      relative to the parent. */
  lemma ChildTextInParent(p: SyntaxNodeRef, i: nat)
    requires i < ChildCount(p)
    ensures var c := Child(p, i);
            p.start <= c.start && Range(c).end <= Range(p).end && Len(p.green) == |Text(p.green)| &&
            Text(p.green)[c.start - p.start..Range(c).end - p.start] == NodeText(c)
  {
    var cs := p.green.children;
    ChildWithinParent(p, i);
    TextLength(p.green);
    assert cs == cs[..i] + [cs[i]] + cs[i + 1..];
    TextSeqAppend(cs[..i] + [cs[i]], cs[i + 1..]);
    TextSeqAppend(cs[..i], [cs[i]]);
    assert TextSeq([cs[i]]) == Text(cs[i]) by {
      assert [cs[i]][1..] == [];
    }
    TextSeqLength(cs[..i]);
    TextLength(cs[i]);
    assert Text(p.green) == TextSeq(cs[..i]) + Text(cs[i]) + TextSeq(cs[i + 1..]);
  }

  /** Lossless located view: the root's text, cut at a located node's range,
      is that node's own text. */
  lemma {:induction false} LocatedText(n: SyntaxNodeRef)
    requires Located(n) && RootOf(n).start == 0
    ensures Range(n).end <= |Text(RootOf(n).green)|
    ensures Text(RootOf(n).green)[n.start..Range(n).end] == NodeText(n)
    decreases n
  {
    match n.parent
    case None =>
      TextLength(n.green);
      assert Text(n.green)[0..Len(n.green)] == Text(n.green);
    case Some(p) =>
      LocatedText(p);
      ChildTextInParent(p, n.index);
      var whole := Text(RootOf(n).green);
      SliceOfSlice(whole, p.start, Range(p).end, n.start - p.start, Range(n).end - p.start);
  }

  lemma SliceOfSlice(s: string, a: nat, b: nat, c: nat, d: nat)
    requires a <= b <= |s| && c <= d <= b - a
    ensures s[a..b][c..d] == s[a + c..a + d]
  {
    forall k | 0 <= k < d - c
      ensures s[a..b][c..d][k] == s[a + c..a + d][k]
    {
      assert s[a..b][c..d][k] == s[a + c + k];
    }
  }

  /** `walk::preorder`: the node, then each child's preorder, in order. */
  function Preorder(n: SyntaxNodeRef): (r: seq<SyntaxNodeRef>)
    ensures |r| >= 1 && r[0] == n
    decreases n.green, 1, 0
  {
    [n] + PreorderFrom(n, 0)
  }

  /** The preorders of children `i..` of `n`, concatenated. */
  function PreorderFrom(n: SyntaxNodeRef, i: nat): seq<SyntaxNodeRef>
    decreases n.green, 0, ChildCount(n) - i
  {
    if i >= ChildCount(n) then [] else Preorder(Child(n, i)) + PreorderFrom(n, i + 1)
  }

  /** Every node a preorder walk yields is a located descendant: consistent
      with its parent chain, and inside the range of the node walked. */
  lemma {:induction false} PreorderLocated(n: SyntaxNodeRef)
    requires Located(n)
    ensures forall m :: m in Preorder(n) ==>
              Located(m) && RootOf(m) == RootOf(n) && n.start <= m.start && Range(m).end <= Range(n).end
    decreases n.green, 1, 0
  {
    PreorderFromLocated(n, 0);
  }

  lemma {:induction false} PreorderFromLocated(n: SyntaxNodeRef, i: nat)
    requires Located(n)
    ensures forall m :: m in PreorderFrom(n, i) ==>
              Located(m) && RootOf(m) == RootOf(n) && n.start <= m.start && Range(m).end <= Range(n).end
    decreases n.green, 0, ChildCount(n) - i
  {
    if i < ChildCount(n) {
      var c := Child(n, i);
      ChildWithinParent(n, i);
      assert Located(c) && RootOf(c) == RootOf(n);
      PreorderLocated(c);
      PreorderFromLocated(n, i + 1);
    }
  }

  /** A leaf is a node without children. `find_leaf_at_offset` yields the
      non-empty leaves whose range contains `offset` or ends at it. */
  predicate IsLeafAt(n: SyntaxNodeRef, offset: nat) {
    ChildCount(n) == 0 && Len(n.green) > 0 && n.start <= offset <= Range(n).end
  }

  function LeafAt(offset: nat): SyntaxNodeRef -> Option<SyntaxNodeRef> {
    n => if IsLeafAt(n, offset) then Some(n) else None
  }

  /** `find_leaf_at_offset`: those leaves, in document order. */
  function LeavesAt(root: Green, offset: nat): (r: seq<SyntaxNodeRef>)
    ensures forall n :: n in r <==> n in Preorder(Root(root)) && IsLeafAt(n, offset)
  {
    var nodes := Preorder(Root(root));
    forall n ensures n in FilterMap(nodes, LeafAt(offset)) <==> n in nodes && IsLeafAt(n, offset) {
      FilterMapMembership(nodes, LeafAt(offset), n);
    }
    FilterMap(nodes, LeafAt(offset))
  }
}
