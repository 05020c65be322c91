// The editor's queries over a parsed file: brace matching, highlighting,
// diagnostics and runnable discovery.

module Editor {
  import opened Wrappers
  import opened TextUnits
  import opened Syntax

  /** A parse error the parser recorded beside the tree. */
  datatype SyntaxError = SyntaxError(offset: nat, msg: string)

  /** A parsed file: the content tree and the parser's error list. */
  datatype File = File(root: Green, errors: seq<SyntaxError>)

  datatype HighlightedRange = HighlightedRange(range: TextRange, tag: string)
  datatype Diagnostic = Diagnostic(range: TextRange, msg: string)
  datatype RunnableKind = Test(name: string) | Bin
  datatype Runnable = Runnable(range: TextRange, kind: RunnableKind)

  // ---------------------------------------------------------------- braces

  /** Openers at even indices, each followed by its closer. */
  const BRACES: seq<SyntaxKind> := [L_CURLY, R_CURLY, L_BRACK, R_BRACK, L_PAREN, R_PAREN, L_ANGLE, R_ANGLE]

  /** `idx ^ 1`: the index with its lowest bit flipped. */
  function Xor1(idx: nat): nat {
    if idx % 2 == 0 then idx + 1 else idx - 1
  }

  /** On the table's indices this is the bitwise `^ 1` of the source. */
  lemma Xor1IsBitFlip(idx: nat)
    requires idx < |BRACES|
    ensures Xor1(idx) == ((idx as bv8) ^ 1) as nat
  {
    if idx == 0 {} else if idx == 1 {} else if idx == 2 {} else if idx == 3 {}
    else if idx == 4 {} else if idx == 5 {} else if idx == 6 {} else {}
  }

  /** Flipping the lowest bit pairs `2k` with `2k + 1`, both ways. */
  lemma Xor1Pairs(idx: nat)
    requires idx < |BRACES|
    ensures Xor1(idx) < |BRACES| && Xor1(idx) / 2 == idx / 2 && Xor1(idx) != idx
    ensures Xor1(Xor1(idx)) == idx
  {
  }

  predicate IsBrace(k: SyntaxKind) {
    k in BRACES
  }

  function BracePosition(k: SyntaxKind): Option<nat> {
    FindIndex(BRACES, (b: SyntaxKind) => b == k)
  }

  /** The kind `matching_brace` looks for: `BRACES[idx ^ 1]`. */
  function Opposite(k: SyntaxKind): SyntaxKind
    requires IsBrace(k)
  {
    var idx := BracePosition(k).value;
    Xor1Pairs(idx);
    BRACES[Xor1(idx)]
  }

  lemma BraceTable()
    ensures BRACES[0] == L_CURLY && BRACES[1] == R_CURLY && BRACES[2] == L_BRACK && BRACES[3] == R_BRACK
    ensures BRACES[4] == L_PAREN && BRACES[5] == R_PAREN && BRACES[6] == L_ANGLE && BRACES[7] == R_ANGLE
    ensures forall i, j :: 0 <= i < j < |BRACES| ==> BRACES[i] != BRACES[j]
  {
  }

  /** The table has no repeated kind, so `position` finds each entry's own index. */
  lemma BracePositionOf(i: nat)
    requires i < |BRACES|
    ensures BracePosition(BRACES[i]) == Some(i)
  {
    BraceTable();
    var r := BracePosition(BRACES[i]);
    assert r.Some?;
  }

  lemma BracePositionFound(k: SyntaxKind)
    ensures BracePosition(k).Some? <==> IsBrace(k)
  {
    if IsBrace(k) {
      var i :| 0 <= i < |BRACES| && BRACES[i] == k;
      BracePositionOf(i);
    }
  }

  lemma OppositeAt(i: nat)
    requires i < |BRACES|
    ensures Xor1(i) < |BRACES| && Opposite(BRACES[i]) == BRACES[Xor1(i)]
  {
    BracePositionOf(i);
    Xor1Pairs(i);
  }

  /** `BRACES[idx ^ 1]` is an involution that never maps a brace to itself. */
  lemma OppositeInvolution(k: SyntaxKind)
    requires IsBrace(k)
    ensures IsBrace(Opposite(k)) && Opposite(Opposite(k)) == k && Opposite(k) != k
  {
    var i := BracePosition(k).value;
    BracePositionOf(i);
    OppositeAt(i);
    Xor1Pairs(i);
    OppositeAt(Xor1(i));
    BraceTable();
  }

  /** The table pairs each opener with its closer. */
  lemma OppositeTable()
    ensures Opposite(L_CURLY) == R_CURLY && Opposite(R_CURLY) == L_CURLY
    ensures Opposite(L_BRACK) == R_BRACK && Opposite(R_BRACK) == L_BRACK
    ensures Opposite(L_PAREN) == R_PAREN && Opposite(R_PAREN) == L_PAREN
    ensures Opposite(L_ANGLE) == R_ANGLE && Opposite(R_ANGLE) == L_ANGLE
  {
    BraceTable();
    OppositeAt(0); OppositeAt(1); OppositeAt(2); OppositeAt(3);
    OppositeAt(4); OppositeAt(5); OppositeAt(6); OppositeAt(7);
    assert Xor1(0) == 1 && Xor1(1) == 0 && Xor1(2) == 3 && Xor1(3) == 2;
    assert Xor1(4) == 5 && Xor1(5) == 4 && Xor1(6) == 7 && Xor1(7) == 6;
  }

  function BraceLeaf(n: SyntaxNodeRef): Option<(SyntaxNodeRef, nat)> {
    match BracePosition(Kind(n))
    case None => None
    case Some(idx) => Some((n, idx))
  }

  /** The brace `matching_brace` starts from: the first leaf at the offset
      whose kind is a brace. */
  function BraceAt(file: File, offset: nat): (r: Option<SyntaxNodeRef>)
    ensures r.Some? ==> r.value in LeavesAt(file.root, offset) && IsBrace(Kind(r.value))
    ensures r.Some? ==> exists k :: 0 <= k < |LeavesAt(file.root, offset)| &&
                          LeavesAt(file.root, offset)[k] == r.value &&
                          forall j :: 0 <= j < k ==> !IsBrace(Kind(LeavesAt(file.root, offset)[j]))
    ensures r.None? ==> forall n :: n in LeavesAt(file.root, offset) ==> !IsBrace(Kind(n))
  {
    Find(LeavesAt(file.root, offset), IsBraceNode)
  }

  predicate IsBraceNode(n: SyntaxNodeRef) {
    IsBrace(Kind(n))
  }

  /** `filter_map(..).next()` over the leaves picks the same node as `BraceAt`,
      together with its index in the table. */
  lemma {:induction false} FirstBraceLeaf(leaves: seq<SyntaxNodeRef>)
    ensures FilterMap(leaves, BraceLeaf) == [] <==> Find(leaves, IsBraceNode).None?
    ensures FilterMap(leaves, BraceLeaf) != [] ==>
              FilterMap(leaves, BraceLeaf)[0] ==
              (Find(leaves, IsBraceNode).value, BracePosition(Kind(Find(leaves, IsBraceNode).value)).value)
  {
    if leaves != [] {
      BraceLeafStep(leaves);
      if !IsBraceNode(leaves[0]) {
        FirstBraceLeaf(leaves[1..]);
      }
    }
  }

  lemma BraceLeafStep(leaves: seq<SyntaxNodeRef>)
    requires leaves != []
    ensures IsBraceNode(leaves[0]) ==>
              FilterMap(leaves, BraceLeaf) != [] &&
              FilterMap(leaves, BraceLeaf)[0] == (leaves[0], BracePosition(Kind(leaves[0])).value) &&
              Find(leaves, IsBraceNode) == Some(leaves[0])
    ensures !IsBraceNode(leaves[0]) ==>
              FilterMap(leaves, BraceLeaf) == FilterMap(leaves[1..], BraceLeaf) &&
              Find(leaves, IsBraceNode) == Find(leaves[1..], IsBraceNode)
  {
    var n := leaves[0];
    BracePositionFound(Kind(n));
    if !IsBraceNode(n) {
      var tail := FindIndex(leaves[1..], IsBraceNode);
      assert FindIndex(leaves, IsBraceNode) == if tail.None? then None else Some(tail.value + 1);
    }
  }

  /** Index of the first direct child of `parent` with kind `k`. */
  function FirstIndexOfKind(parent: SyntaxNodeRef, k: SyntaxKind): (r: Option<nat>)
    ensures r.Some? ==> r.value < ChildCount(parent) && Kind(Child(parent, r.value)) == k
    ensures r.Some? ==> forall i :: 0 <= i < r.value ==> Kind(Child(parent, i)) != k
    ensures r.None? ==> forall j :: 0 <= j < ChildCount(parent) ==> Kind(Child(parent, j)) != k
  {
    FindIndex(Children(parent), (c: SyntaxNodeRef) => Kind(c) == k)
  }

  /** `matching_brace`: from the first brace leaf at the offset, the start of
      the first direct child of its parent with the opposite kind. */
  function MatchingBrace(file: File, offset: nat): Option<nat> {
    match BraceAt(file, offset)
    case None => None
    case Some(braceNode) =>
      var braceIdx := BracePosition(Kind(braceNode)).value;
      match Parent(braceNode)
      case None => None
      case Some(parent) =>
        Xor1Pairs(braceIdx);
        var matchingKind := BRACES[Xor1(braceIdx)];
        match FirstIndexOfKind(parent, matchingKind)
        case None => None
        case Some(j) => Some(Range(Child(parent, j)).start)
  }

  /** Without a brace leaf at the offset there is no answer. */
  lemma MatchingBraceWithoutBrace(file: File, offset: nat)
    requires BraceAt(file, offset).None?
    ensures MatchingBrace(file, offset).None?
  {
  }

  /** A brace without a parent has no answer. */
  lemma MatchingBraceWithoutParent(file: File, offset: nat, b: SyntaxNodeRef)
    requires BraceAt(file, offset) == Some(b) && b.parent.None?
    ensures MatchingBrace(file, offset).None?
  {
  }

  /** From the brace `b` found at the offset, the answer is the start of the
      first direct child of its parent whose kind is the opposite brace; no
      nesting depth is counted. */
  lemma MatchingBraceFinds(file: File, offset: nat, b: SyntaxNodeRef)
    requires BraceAt(file, offset) == Some(b) && b.parent.Some?
    ensures MatchingBrace(file, offset) ==
              (match FirstIndexOfKind(b.parent.value, Opposite(Kind(b)))
               case None => None
               case Some(j) => Some(Child(b.parent.value, j).start))
  {
    BracePositionFound(Kind(b));
  }

  /** The offset `matching_brace` returns lies within the file's text. */
  lemma MatchingBraceInText(file: File, offset: nat)
    requires MatchingBrace(file, offset).Some?
    ensures MatchingBrace(file, offset).value <= |Text(file.root)|
  {
    var b := BraceAt(file, offset).value;
    PreorderLocated(Root(file.root));
    assert b in Preorder(Root(file.root));
    var p := b.parent.value;
    assert Located(p) && RootOf(p) == Root(file.root);
    MatchingBraceFinds(file, offset, b);
    var j := FirstIndexOfKind(p, Opposite(Kind(b))).value;
    ChildStartInText(file.root, p, j);
  }

  /** A non-empty brace token that is the only brace leaf touching its own
      start, and a partner that is the first child of the opposite kind under
      the same parent: matching from the brace's start gives the partner's
      start. */
  lemma MatchingBraceFromSole(file: File, b: SyntaxNodeRef, partner: SyntaxNodeRef)
    requires b in Preorder(Root(file.root)) && partner in Preorder(Root(file.root))
    requires ChildCount(b) == 0 && Len(b.green) > 0 && IsBrace(Kind(b))
    requires forall n :: n in LeavesAt(file.root, b.start) && IsBrace(Kind(n)) ==> n == b
    requires b.parent.Some? && partner.parent == b.parent
    requires Kind(partner) == Opposite(Kind(b))
    requires FirstIndexOfKind(b.parent.value, Kind(partner)) == Some(partner.index)
    ensures MatchingBrace(file, b.start) == Some(partner.start)
  {
    SoleBraceAt(file, b);
    MatchingBraceFinds(file, b.start, b);
    PreorderLocated(Root(file.root));
    assert Located(partner);
    assert Child(b.parent.value, partner.index) == partner;
  }

  /** The only brace leaf touching a brace token's start is what `BraceAt`
      picks there. */
  lemma SoleBraceAt(file: File, b: SyntaxNodeRef)
    requires b in Preorder(Root(file.root))
    requires ChildCount(b) == 0 && Len(b.green) > 0 && IsBrace(Kind(b))
    requires forall n :: n in LeavesAt(file.root, b.start) && IsBrace(Kind(n)) ==> n == b
    ensures BraceAt(file, b.start) == Some(b)
  {
    assert IsLeafAt(b, b.start);
    assert b in LeavesAt(file.root, b.start);
    var r := BraceAt(file, b.start);
    assert r.Some?;
  }

  /** Brace matching is symmetric for a pair of sibling brace tokens when each
      is the first child of its kind under the common parent and is the only
      brace leaf touching its own start. */
  lemma MatchingBraceSymmetric(file: File, open: SyntaxNodeRef, close: SyntaxNodeRef)
    requires open in Preorder(Root(file.root)) && close in Preorder(Root(file.root))
    requires ChildCount(open) == 0 && Len(open.green) > 0
    requires ChildCount(close) == 0 && Len(close.green) > 0
    requires IsBrace(Kind(open)) && Kind(close) == Opposite(Kind(open))
    requires open.parent.Some? && close.parent == open.parent
    requires FirstIndexOfKind(open.parent.value, Kind(open)) == Some(open.index)
    requires FirstIndexOfKind(open.parent.value, Kind(close)) == Some(close.index)
    requires forall n :: n in LeavesAt(file.root, open.start) && IsBrace(Kind(n)) ==> n == open
    requires forall n :: n in LeavesAt(file.root, close.start) && IsBrace(Kind(n)) ==> n == close
    ensures MatchingBrace(file, open.start) == Some(close.start)
    ensures MatchingBrace(file, close.start) == Some(open.start)
  {
    OppositeInvolution(Kind(open));
    MatchingBraceFromSole(file, open, close);
    MatchingBraceFromSole(file, close, open);
  }

  /** A root holding an opening curly brace token with text `a` followed by a
      closing one with text `b`; `{}` is the one with `a == "{"` and `b == "}"`. */
  function CurlyPair(a: string, b: string): Green {
    Node(ROOT, [Token(L_CURLY, a), Token(R_CURLY, b)])
  }

  /** The walk over such a root: the root, then the two braces. */
  lemma CurlyPairPreorder(a: string, b: string)
    ensures Preorder(Root(CurlyPair(a, b))) ==
            [Root(CurlyPair(a, b)), Child(Root(CurlyPair(a, b)), 0), Child(Root(CurlyPair(a, b)), 1)]
  {
    var r := Root(CurlyPair(a, b));
    assert ChildCount(r) == 2;
    var o := Child(r, 0);
    var c := Child(r, 1);
    assert PreorderFrom(o, 0) == [];
    assert PreorderFrom(c, 0) == [];
    assert PreorderFrom(r, 2) == [];
    assert PreorderFrom(r, 1) == [c];
    assert PreorderFrom(r, 0) == [o, c];
  }

  /** The opening brace starts at 0 and the closing one where it ends. */
  lemma CurlyPairStarts(a: string, b: string)
    ensures Child(Root(CurlyPair(a, b)), 0).start == 0 && Len(Child(Root(CurlyPair(a, b)), 0).green) == |a|
    ensures Child(Root(CurlyPair(a, b)), 1).start == |a| && Len(Child(Root(CurlyPair(a, b)), 1).green) == |b|
    ensures Kind(Child(Root(CurlyPair(a, b)), 0)) == L_CURLY
  {
    var cs := CurlyPair(a, b).children;
    assert cs[..1] == [cs[0]] && LenSeq(cs[..1][1..]) == 0;
  }

  /** At the closing brace's start both braces touch the offset, the opening
      one first. */
  lemma CurlyPairLeaves(a: string, b: string)
    requires a != [] && b != []
    ensures LeavesAt(CurlyPair(a, b), 0) == [Child(Root(CurlyPair(a, b)), 0)]
    ensures LeavesAt(CurlyPair(a, b), |a|) == [Child(Root(CurlyPair(a, b)), 0), Child(Root(CurlyPair(a, b)), 1)]
  {
    var r := Root(CurlyPair(a, b));
    var o := Child(r, 0);
    var c := Child(r, 1);
    CurlyPairPreorder(a, b);
    CurlyPairStarts(a, b);
    var walk := [r, o, c];
    assert walk[1..] == [o, c] && [o, c][1..] == [c] && [c][1..] == [];
    assert FilterMap([c], LeafAt(0)) == [];
    assert FilterMap([o, c], LeafAt(0)) == [o];
    assert FilterMap(walk, LeafAt(0)) == [o];
    assert FilterMap([c], LeafAt(|a|)) == [c];
    assert FilterMap([o, c], LeafAt(|a|)) == [o, c];
    assert FilterMap(walk, LeafAt(|a|)) == [o, c];
  }

  /** On such a root the opening brace is the brace found at both starts, and
      the closing brace is the first child of its kind. */
  lemma CurlyPairBraceAt(a: string, b: string, errors: seq<SyntaxError>)
    requires a != [] && b != []
    ensures BraceAt(File(CurlyPair(a, b), errors), 0) == Some(Child(Root(CurlyPair(a, b)), 0))
    ensures BraceAt(File(CurlyPair(a, b), errors), |a|) == Some(Child(Root(CurlyPair(a, b)), 0))
  {
    var r := Root(CurlyPair(a, b));
    var o := Child(r, 0);
    CurlyPairLeaves(a, b);
    assert IsBraceNode(o);
    assert FindIndex([o], IsBraceNode) == Some(0);
    assert FindIndex([o, Child(r, 1)], IsBraceNode) == Some(0);
  }

  /** The closing brace is the root's first `R_CURLY` child. */
  lemma CurlyPairCloser(a: string, b: string)
    ensures FirstIndexOfKind(Root(CurlyPair(a, b)), R_CURLY) == Some(1)
  {
    var r := Root(CurlyPair(a, b));
    assert Kind(Child(r, 0)) != R_CURLY;
    assert Kind(Child(r, 1)) == R_CURLY;
  }

  /** Brace matching is not symmetric when one brace ends where the other
      starts: on `{}` (and on any such pair) the answer from either brace's
      start is the closing brace's start. */
  lemma MatchingBraceAdjacentPair(a: string, b: string, errors: seq<SyntaxError>)
    requires a != [] && b != []
    ensures MatchingBrace(File(CurlyPair(a, b), errors), 0) == Some(|a|)
    ensures MatchingBrace(File(CurlyPair(a, b), errors), |a|) == Some(|a|)
  {
    var file := File(CurlyPair(a, b), errors);
    var o := Child(Root(file.root), 0);
    CurlyPairBraceAt(a, b, errors);
    CurlyPairCloser(a, b);
    CurlyPairStarts(a, b);
    OppositeTable();
    MatchingBraceFinds(file, 0, o);
    MatchingBraceFinds(file, |a|, o);
  }

  lemma ChildStartInText(root: Green, p: SyntaxNodeRef, j: nat)
    requires Located(p) && RootOf(p) == Root(root) && j < ChildCount(p)
    ensures Child(p, j).start <= |Text(root)|
  {
    var c := Child(p, j);
    assert Located(c) && RootOf(c) == Root(root);
    LocatedText(c);
  }

  // ---------------------------------------------------------------- highlight

  /** Kinds with a tag of their own, matched before the keyword arm. */
  predicate HasFixedTag(k: SyntaxKind) {
    k in {ERROR, COMMENT, DOC_COMMENT, STRING, RAW_STRING, RAW_BYTE_STRING, BYTE_STRING,
          ATTR, NAME_REF, NAME, INT_NUMBER, FLOAT_NUMBER, CHAR, BYTE, LIFETIME}
  }

  /** The tag of a kind, first matching arm wins; `is_keyword` is a parameter. */
  function TagOf(k: SyntaxKind, isKeyword: SyntaxKind -> bool): (r: Option<string>)
    ensures k == ERROR ==> r == Some("error")
    ensures r == Some("keyword") <==> isKeyword(k) && !HasFixedTag(k)
    ensures r.None? <==> !HasFixedTag(k) && !isKeyword(k)
  {
    match k
    case ERROR => Some("error")
    case COMMENT | DOC_COMMENT => Some("comment")
    case STRING | RAW_STRING | RAW_BYTE_STRING | BYTE_STRING => Some("string")
    case ATTR => Some("attribute")
    case NAME_REF => Some("text")
    case NAME => Some("function")
    case INT_NUMBER | FLOAT_NUMBER | CHAR | BYTE => Some("literal")
    case LIFETIME => Some("parameter")
    case _ => if isKeyword(k) then Some("keyword") else None
  }

  function HighlightOf(isKeyword: SyntaxKind -> bool): SyntaxNodeRef -> Option<HighlightedRange> {
    n => match TagOf(Kind(n), isKeyword)
         case None => None
         case Some(tag) => Some(HighlightedRange(Range(n), tag))
  }

  /** `highlight`: one entry per tagged node of the preorder walk, in order. */
  method Highlight(file: File, isKeyword: SyntaxKind -> bool) returns (res: seq<HighlightedRange>)
    ensures res == FilterMap(Preorder(Root(file.root)), HighlightOf(isKeyword))
  {
    var nodes := Preorder(Root(file.root));
    res := [];
    for i := 0 to |nodes|
      invariant res == FilterMap(nodes[..i], HighlightOf(isKeyword))
    {
      var node := nodes[i];
      FilterMapAppend(nodes[..i], [node], HighlightOf(isKeyword));
      assert nodes[..i + 1] == nodes[..i] + [node];
      match TagOf(Kind(node), isKeyword) {
        case None =>
        case Some(tag) =>
          res := res + [HighlightedRange(Range(node), tag)];
      }
    }
    assert nodes[..|nodes|] == nodes;
  }

  /** Each highlight is the range and tag of a tagged node, and each tagged
      node gives one. */
  lemma HighlightEntries(file: File, isKeyword: SyntaxKind -> bool, h: HighlightedRange)
    ensures h in FilterMap(Preorder(Root(file.root)), HighlightOf(isKeyword)) <==>
            exists n :: n in Preorder(Root(file.root)) && TagOf(Kind(n), isKeyword) == Some(h.tag) && Range(n) == h.range
  {
    var nodes := Preorder(Root(file.root));
    FilterMapMembership(nodes, HighlightOf(isKeyword), h);
    if exists n :: n in nodes && TagOf(Kind(n), isKeyword) == Some(h.tag) && Range(n) == h.range {
      var n :| n in nodes && TagOf(Kind(n), isKeyword) == Some(h.tag) && Range(n) == h.range;
      var i :| 0 <= i < |nodes| && nodes[i] == n;
      assert HighlightOf(isKeyword)(nodes[i]) == Some(h);
    }
  }

  // ---------------------------------------------------------------- diagnostics

  function ErrorNodeDiagnostic(n: SyntaxNodeRef): Option<Diagnostic> {
    if Kind(n) == ERROR then Some(Diagnostic(Range(n), "Syntax Error")) else None
  }

  /** A recorded parse error becomes a one-unit range at its offset. */
  function ParseErrorDiagnostic(e: SyntaxError): Diagnostic {
    Diagnostic(OffsetLen(e.offset, 1), e.msg)
  }

  /** `diagnostics`: the `ERROR` nodes of the preorder walk, then every
      recorded parse error, without deduplication. */
  method Diagnostics(file: File) returns (res: seq<Diagnostic>)
    ensures |res| == |FilterMap(Preorder(Root(file.root)), ErrorNodeDiagnostic)| + |file.errors|
    ensures res[..|res| - |file.errors|] == FilterMap(Preorder(Root(file.root)), ErrorNodeDiagnostic)
    ensures forall i :: 0 <= i < |file.errors| ==>
              res[|res| - |file.errors| + i] == Diagnostic(OffsetLen(file.errors[i].offset, 1), file.errors[i].msg)
  {
    var nodes := Preorder(Root(file.root));
    res := [];
    for i := 0 to |nodes|
      invariant res == FilterMap(nodes[..i], ErrorNodeDiagnostic)
    {
      var node := nodes[i];
      FilterMapAppend(nodes[..i], [node], ErrorNodeDiagnostic);
      assert nodes[..i + 1] == nodes[..i] + [node];
      if Kind(node) == ERROR {
        res := res + [Diagnostic(Range(node), "Syntax Error")];
      }
    }
    assert nodes[..|nodes|] == nodes;
    ghost var fromTree := res;
    res := res + seq(|file.errors|, i requires 0 <= i < |file.errors| => ParseErrorDiagnostic(file.errors[i]));
    assert res[..|res| - |file.errors|] == fromTree;
  }

  /** Every tree-side diagnostic is an `ERROR` node's range with the generic
      message. */
  lemma ErrorNodeDiagnostics(file: File, d: Diagnostic)
    ensures d in FilterMap(Preorder(Root(file.root)), ErrorNodeDiagnostic) <==>
            d.msg == "Syntax Error" &&
            exists n :: n in Preorder(Root(file.root)) && Kind(n) == ERROR && Range(n) == d.range
  {
    var nodes := Preorder(Root(file.root));
    FilterMapMembership(nodes, ErrorNodeDiagnostic, d);
    if d.msg == "Syntax Error" && exists n :: n in nodes && Kind(n) == ERROR && Range(n) == d.range {
      var n :| n in nodes && Kind(n) == ERROR && Range(n) == d.range;
      var i :| 0 <= i < |nodes| && nodes[i] == n;
      assert ErrorNodeDiagnostic(nodes[i]) == Some(d);
    }
  }

  // ---------------------------------------------------------------- runnables

  function IsFnDef(n: SyntaxNodeRef): Option<SyntaxNodeRef> {
    if Kind(n) == FN_DEF then Some(n) else None
  }

  /** `File::functions`: the root's `FN_DEF` children, in order. */
  function Functions(file: File): seq<SyntaxNodeRef> {
    FilterMap(Children(Root(file.root)), IsFnDef)
  }

  /** `name()`: the text of the first `NAME` child, if there is one. */
  function FnName(f: SyntaxNodeRef): Option<string> {
    match FirstIndexOfKind(f, NAME)
    case None => None
    case Some(j) => Some(NodeText(Child(f, j)))
  }

  /** What `runnables` keeps of one function; `has_atom_attr` is a parameter. */
  function RunnableFor(f: SyntaxNodeRef, hasAtomAttr: (SyntaxNodeRef, string) -> bool): (r: Option<Runnable>)
    ensures r.Some? <==> FnName(f).Some? && (FnName(f).value == "main" || hasAtomAttr(f, "test"))
    ensures r.Some? ==> r.value.range == Range(f)
    ensures r.Some? ==> (r.value.kind == Bin <==> FnName(f).value == "main")
    ensures r.Some? && r.value.kind.Test? ==> r.value.kind.name == FnName(f).value
  {
    match FnName(f)
    case None => None
    case Some(name) =>
      if name == "main" then Some(Runnable(Range(f), Bin))
      else if hasAtomAttr(f, "test") then Some(Runnable(Range(f), Test(name)))
      else None
  }

  /** `runnables`. */
  function Runnables(file: File, hasAtomAttr: (SyntaxNodeRef, string) -> bool): seq<Runnable> {
    FilterMap(Functions(file), (f: SyntaxNodeRef) => RunnableFor(f, hasAtomAttr))
  }

  /** Every runnable comes from a top-level function that is `main` or is
      marked `test`, and every such function gives one. */
  lemma RunnablesFromFunctions(file: File, hasAtomAttr: (SyntaxNodeRef, string) -> bool, rn: Runnable)
    ensures rn in Runnables(file, hasAtomAttr) <==>
            exists i :: 0 <= i < ChildCount(Root(file.root)) &&
                        Kind(Child(Root(file.root), i)) == FN_DEF &&
                        RunnableFor(Child(Root(file.root), i), hasAtomAttr) == Some(rn)
  {
    if rn in Runnables(file, hasAtomAttr) {
      RunnableHasFunction(file, hasAtomAttr, rn);
    }
    if exists i :: 0 <= i < ChildCount(Root(file.root)) &&
                   Kind(Child(Root(file.root), i)) == FN_DEF &&
                   RunnableFor(Child(Root(file.root), i), hasAtomAttr) == Some(rn) {
      var i :| 0 <= i < ChildCount(Root(file.root)) &&
               Kind(Child(Root(file.root), i)) == FN_DEF &&
               RunnableFor(Child(Root(file.root), i), hasAtomAttr) == Some(rn);
      FunctionGivesRunnable(file, hasAtomAttr, i);
    }
  }

  /** Every runnable comes from a top-level function. */
  lemma RunnableHasFunction(file: File, hasAtomAttr: (SyntaxNodeRef, string) -> bool, rn: Runnable)
    requires rn in Runnables(file, hasAtomAttr)
    ensures exists i :: 0 <= i < ChildCount(Root(file.root)) &&
                        Kind(Child(Root(file.root), i)) == FN_DEF &&
                        RunnableFor(Child(Root(file.root), i), hasAtomAttr) == Some(rn)
  {
    var top := Children(Root(file.root));
    var fns := Functions(file);
    var keep := (f: SyntaxNodeRef) => RunnableFor(f, hasAtomAttr);
    FilterMapMembership(fns, keep, rn);
    var k :| 0 <= k < |fns| && keep(fns[k]) == Some(rn);
    FilterMapMembership(top, IsFnDef, fns[k]);
    var i :| 0 <= i < |top| && IsFnDef(top[i]) == Some(fns[k]);
    assert Kind(Child(Root(file.root), i)) == FN_DEF;
  }

  /** Every top-level function that yields a runnable has it listed. */
  lemma FunctionGivesRunnable(file: File, hasAtomAttr: (SyntaxNodeRef, string) -> bool, i: nat)
    requires i < ChildCount(Root(file.root)) && Kind(Child(Root(file.root), i)) == FN_DEF
    requires RunnableFor(Child(Root(file.root), i), hasAtomAttr).Some?
    ensures RunnableFor(Child(Root(file.root), i), hasAtomAttr).value in Runnables(file, hasAtomAttr)
  {
    var top := Children(Root(file.root));
    var fns := Functions(file);
    var rn := RunnableFor(top[i], hasAtomAttr).value;
    var keep := (f: SyntaxNodeRef) => RunnableFor(f, hasAtomAttr);
    FilterMapMembership(fns, keep, rn);
    FilterMapMembership(top, IsFnDef, top[i]);
    var k :| 0 <= k < |fns| && fns[k] == top[i];
    assert keep(fns[k]) == Some(rn);
  }
}
