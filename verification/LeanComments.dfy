/** The comment stripper of src/mvpc/backends/lean.py, in place, against a description of nested blocks. */
module LeanComments {

  const OPENER := "/-"
  const CLOSER := "-/"

  predicate OpensAt(s: string, i: nat) {
    i + 1 < |s| && s[i] == '/' && s[i + 1] == '-'
  }

  predicate ClosesAt(s: string, i: nat) {
    i + 1 < |s| && s[i] == '-' && s[i + 1] == '/'
  }

  predicate LineAt(s: string, i: nat) {
    i + 1 < |s| && s[i] == '-' && s[i + 1] == '-'
  }

  function BlankChar(c: char): char {
    if c == '\n' then c else ' '
  }

  function Blank(t: string): (b: string)
    ensures |b| == |t|
    ensures forall k :: 0 <= k < |t| ==> b[k] == BlankChar(t[k])
  {
    seq(|t|, k requires 0 <= k < |t| => BlankChar(t[k]))
  }

  /** The position at which `depth` open blocks have all been closed, reading from `i`; blocks
      that are never closed reach to the end. */
  function Exit(s: string, i: nat, depth: nat): (e: nat)
    requires i <= |s|
    ensures i <= e <= |s|
    decreases |s| - i
  {
    if depth == 0 || i == |s| then i
    else if OpensAt(s, i) then Exit(s, i + 2, depth + 1)
    else if ClosesAt(s, i) then Exit(s, i + 2, depth - 1)
    else Exit(s, i + 1, depth)
  }

  function SkipLine(s: string, i: nat): (e: nat)
    requires i <= |s|
    ensures i <= e <= |s|
    ensures forall k :: i <= k < e ==> s[k] != '\n'
    ensures e < |s| ==> s[e] == '\n'
    decreases |s| - i
  {
    if i == |s| || s[i] == '\n' then i else SkipLine(s, i + 1)
  }

  /** Where the construct at a code position ends. */
  function CodeEnd(s: string, i: nat): (e: nat)
    requires i < |s|
    ensures i < e <= |s|
  {
    if OpensAt(s, i) then Exit(s, i + 2, 1) else if LineAt(s, i) then SkipLine(s, i + 1) else i + 1
  }

  predicate IsCode(s: string, i: nat, depth: nat) {
    depth == 0 && !OpensAt(s, i) && !LineAt(s, i)
  }

  /** What that construct becomes: comments are blanked, a code character stays. */
  function Construct(s: string, i: nat): (t: string)
    requires i < |s|
    ensures |t| == CodeEnd(s, i) - i
  {
    if IsCode(s, i, 0) then [s[i]] else Blank(s[i..CodeEnd(s, i)])
  }

  /** The stripped text from position `i`, which lies outside every comment. */
  function StripFrom(s: string, i: nat): (t: string)
    requires i <= |s|
    ensures |t| == |s| - i
    decreases |s| - i
  {
    if i == |s| then "" else Construct(s, i) + StripFrom(s, CodeEnd(s, i))
  }

  function Strip(s: string): string {
    StripFrom(s, 0)
  }

  // ----- The loop

  /** `t`, from position `i` inside `depth` blocks on, is what stripping makes of `s` there. */
  ghost predicate Agrees(s: string, t: string, i: nat, depth: nat)
    requires i <= |s| == |t|
  {
    var e := Exit(s, i, depth);
    && (forall k :: i <= k < e ==> t[k] == BlankChar(s[k]))
    && t[e..] == StripFrom(s, e)
  }

  /** Where the loop stands after one turn at `i`: the new position and the new depth. */
  function Turn(s: string, i: nat, depth: nat): (r: (nat, nat))
    requires i < |s|
    ensures i < r.0 <= |s|
  {
    if OpensAt(s, i) then (i + 2, depth + 1)
    else if depth > 0 then (if ClosesAt(s, i) then (i + 2, depth - 1) else (i + 1, depth))
    else if LineAt(s, i) then (SkipLine(s, i + 1), 0)
    else (i + 1, 0)
  }

  lemma TurnInBlock(s: string, t: string, i: nat, depth: nat)
    requires i < |s| == |t| && depth > 0 && Agrees(s, t, i, depth)
    ensures Agrees(s, t, Turn(s, i, depth).0, Turn(s, i, depth).1)
    ensures forall k :: i <= k < Turn(s, i, depth).0 ==> t[k] == BlankChar(s[k])
  {
    var e := Exit(s, i, depth);
    var (j, d) := Turn(s, i, depth);
    assert Exit(s, j, d) == e;
    assert j <= e;
  }

  lemma TurnInCode(s: string, t: string, i: nat)
    requires i < |s| == |t| && t[i..] == StripFrom(s, i)
    ensures Agrees(s, t, Turn(s, i, 0).0, Turn(s, i, 0).1)
    ensures forall k :: i <= k < Turn(s, i, 0).0 ==> t[k] == if IsCode(s, i, 0) then s[k] else BlankChar(s[k])
  {
    var e, c := CodeEnd(s, i), Construct(s, i);
    assert t[e..] == t[i..][e - i..];
    forall k | i <= k < e
      ensures t[k] == if IsCode(s, i, 0) then s[k] else BlankChar(s[k])
    {
      assert t[k] == t[i..][k - i] == c[k - i];
    }
    var (j, d) := Turn(s, i, 0);
    assert Exit(s, j, d) == e;
  }

  lemma TurnAgrees(s: string, t: string, i: nat, depth: nat)
    requires i < |s| == |t| && Agrees(s, t, i, depth)
    ensures Agrees(s, t, Turn(s, i, depth).0, Turn(s, i, depth).1)
    ensures forall k :: i <= k < Turn(s, i, depth).0 ==>
      t[k] == if IsCode(s, i, depth) then s[k] else BlankChar(s[k])
  {
    if depth > 0 {
      TurnInBlock(s, t, i, depth);
    } else {
      TurnInCode(s, t, i);
    }
  }

  lemma PairAt(s: string, i: nat)
    requires i < |s|
    ensures i + 1 < |s| && s[i..i + 2] == OPENER <==> OpensAt(s, i)
    ensures i + 1 < |s| && s[i..i + 2] == CLOSER <==> ClosesAt(s, i)
    ensures i + 1 < |s| && s[i..i + 2] == "--" <==> LineAt(s, i)
  {
    if i + 1 < |s| {
      assert s[i..i + 2] == [s[i], s[i + 1]];
    }
  }

  /** The inner loop: blanks the buffer up to the end of the line. */
  method BlankLine(content: string, out: array<char>, i: nat) returns (j: nat)
    requires i <= |content| == out.Length
    modifies out
    ensures j == SkipLine(content, i)
    ensures forall k :: 0 <= k < out.Length ==> out[k] == if i <= k < j then ' ' else old(out[k])
  {
    j := i;
    while j < |content| && content[j] != '\n'
      invariant i <= j <= SkipLine(content, i)
      invariant forall k :: 0 <= k < out.Length ==> out[k] == if i <= k < j then ' ' else old(out[k])
    {
      out[j] := ' ';
      j := j + 1;
    }
  }

  /** The body of the loop: one construct is read at `i` and blanked if it belongs to a comment. */
  method Advance(content: string, out: array<char>, i: nat, depth: nat) returns (j: nat, d: nat)
    requires i < |content| == out.Length
    modifies out
    ensures (j, d) == Turn(content, i, depth)
    ensures IsCode(content, i, depth) ==> out[..] == old(out[..])
    ensures !IsCode(content, i, depth) ==>
      forall k :: 0 <= k < out.Length ==> out[k] == if i <= k < j then BlankChar(content[k]) else old(out[k])
  {
    var n := |content|;
    PairAt(content, i);
    if depth > 0 {
      if i + 1 < n && content[i..i + 2] == "/-" {
        out[i], out[i + 1] := ' ', ' ';
        return i + 2, depth + 1;
      }
      if i + 1 < n && content[i..i + 2] == "-/" {
        out[i], out[i + 1] := ' ', ' ';
        return i + 2, depth - 1;
      }
      out[i] := BlankChar(content[i]);
      return i + 1, depth;
    }
    if i + 1 < n && content[i..i + 2] == "/-" {
      out[i], out[i + 1] := ' ', ' ';
      return i + 2, 1;
    }
    if i + 1 < n && content[i..i + 2] == "--" {
      j := BlankLine(content, out, i);
      return j, 0;
    }
    return i + 1, 0;
  }

  method StripLeanComments(content: string) returns (stripped: string)
    ensures stripped == Strip(content)
  {
    var n := |content|;
    var out := new char[n](k requires 0 <= k < n => content[k]);
    var i, depth := 0, 0;
    ghost var t := Strip(content);
    while i < n
      invariant 0 <= i <= n && depth >= 0 && Agrees(content, t, i, depth)
      invariant forall k :: 0 <= k < n ==> out[k] == if k < i then t[k] else content[k]
      decreases n - i
    {
      TurnAgrees(content, t, i, depth);
      i, depth := Advance(content, out, i, depth);
    }
    stripped := out[..];
  }

  // ----- What stripping keeps

  /** Each character of `t` is that of `s` or its blank, so newlines stay where they are. */
  ghost predicate Kept(s: string, t: string) {
    |t| == |s| && forall k :: 0 <= k < |s| ==> t[k] in {s[k], BlankChar(s[k])} && (t[k] == '\n' <==> s[k] == '\n')
  }

  lemma ConstructKept(s: string, i: nat)
    requires i < |s|
    ensures Kept(s[i..CodeEnd(s, i)], Construct(s, i))
  {
  }

  lemma KeptAppend(a: string, t: string, b: string, u: string)
    requires Kept(a, t) && Kept(b, u)
    ensures Kept(a + b, t + u)
  {
  }

  lemma {:induction false} StripFromKept(s: string, i: nat)
    requires i <= |s|
    ensures Kept(s[i..], StripFrom(s, i))
    decreases |s| - i
  {
    if i < |s| {
      var e := CodeEnd(s, i);
      var part, rest := Construct(s, i), StripFrom(s, e);
      StripFromKept(s, e);
      ConstructKept(s, i);
      KeptAppend(s[i..e], part, s[e..], rest);
      assert s[i..e] + s[e..] == s[i..];
      assert StripFrom(s, i) == part + rest;
    }
  }

  /** Every position keeps its character or is blanked, and newlines stay where they are. */
  lemma StripKeepsOffsets(s: string, i: nat)
    requires i <= |s|
    ensures forall k :: i <= k < |s| ==> StripFrom(s, i)[k - i] in {s[k], BlankChar(s[k])}
    ensures forall k :: i <= k < |s| ==> (StripFrom(s, i)[k - i] == '\n' <==> s[k] == '\n')
  {
    StripFromKept(s, i);
    assert forall k :: i <= k < |s| ==> s[i..][k - i] == s[k];
  }

  function Newlines(s: string): nat {
    if s == "" then 0 else Newlines(s[..|s| - 1]) + (if s[|s| - 1] == '\n' then 1 else 0)
  }

  /** `line_of`: the number of newlines before an offset, plus one. Python slices clamp. */
  function LineOf(s: string, offset: int): nat {
    Newlines(s[..if offset < 0 then 0 else if offset > |s| then |s| else offset]) + 1
  }

  lemma {:induction false} NewlinesAgree(s: string, t: string)
    requires |s| == |t| && forall k :: 0 <= k < |s| ==> (s[k] == '\n' <==> t[k] == '\n')
    ensures Newlines(s) == Newlines(t)
  {
    if s != "" {
      NewlinesAgree(s[..|s| - 1], t[..|t| - 1]);
    }
  }

  /** Line numbers computed on the stripped text are those of the original, at every offset. */
  lemma LinesAgree(s: string, offset: int)
    ensures LineOf(Strip(s), offset) == LineOf(s, offset)
  {
    StripKeepsOffsets(s, 0);
    var k := if offset < 0 then 0 else if offset > |s| then |s| else offset;
    NewlinesAgree(Strip(s)[..k], s[..k]);
  }

  /** A line's number is one more than the number of line ends before the offset. */
  lemma LineOfCounts(s: string, offset: int)
    ensures LineOf(s, offset) == 1 + |set j | 0 <= j < |s| && j < offset && s[j] == '\n'|
  {
    var e := if offset < 0 then 0 else if offset > |s| then |s| else offset;
    NewlinesCounted(s, e);
    assert (set j | 0 <= j < |s| && j < offset && s[j] == '\n') == set j | 0 <= j < e && s[j] == '\n';
  }

  lemma {:induction false} NewlinesCounted(s: string, e: nat)
    requires e <= |s|
    ensures Newlines(s[..e]) == |set j | 0 <= j < e && s[j] == '\n'|
  {
    if e > 0 {
      NewlinesCounted(s, e - 1);
      assert s[..e][..e - 1] == s[..e - 1];
      var before, all := set j | 0 <= j < e - 1 && s[j] == '\n', set j | 0 <= j < e && s[j] == '\n';
      assert all == if s[e - 1] == '\n' then before + {e - 1} else before;
    }
  }

  ghost predicate NoOpener(s: string) {
    forall i: nat :: !OpensAt(s, i) && !LineAt(s, i)
  }

  lemma BlankJoin(head: string, rest: string)
    requires NoOpener(rest) && forall k :: 0 <= k < |head| ==> head[k] != '/' && head[k] != '-'
    ensures NoOpener(head + rest)
  {
    var t := head + rest;
    forall j: nat
      ensures !OpensAt(t, j) && !LineAt(t, j)
    {
      if |head| <= j && j + 1 < |t| {
        assert t[j] == rest[j - |head|] && t[j + 1] == rest[j + 1 - |head|];
        assert !OpensAt(rest, j - |head|) && !LineAt(rest, j - |head|);
      }
    }
  }

  lemma CodeJoin(c: char, rest: string)
    requires NoOpener(rest) && !OpensAt([c] + rest, 0) && !LineAt([c] + rest, 0)
    ensures NoOpener([c] + rest)
  {
    var t := [c] + rest;
    forall j: nat
      ensures !OpensAt(t, j) && !LineAt(t, j)
    {
      if 0 < j && j + 1 < |t| {
        assert t[j] == rest[j - 1] && t[j + 1] == rest[j];
        assert !OpensAt(rest, j - 1) && !LineAt(rest, j - 1);
      }
    }
  }

  /** No comment opener, block or line, is left anywhere in the stripped text. */
  lemma {:induction false} StrippedHasNoOpener(s: string, i: nat)
    requires i <= |s|
    ensures NoOpener(StripFrom(s, i))
    decreases |s| - i
  {
    if i < |s| {
      var e := CodeEnd(s, i);
      var rest := StripFrom(s, e);
      StrippedHasNoOpener(s, e);
      if IsCode(s, i, 0) {
        StripFromKept(s, e);
        assert i + 1 < |s| ==> rest[0] in {s[i + 1], BlankChar(s[i + 1])};
        CodeJoin(s[i], rest);
      } else {
        BlankJoin(Construct(s, i), rest);
      }
    }
  }

  lemma {:induction false} NothingToStrip(s: string, i: nat)
    requires i <= |s| && NoOpener(s)
    ensures StripFrom(s, i) == s[i..]
    decreases |s| - i
  {
    if i < |s| {
      NothingToStrip(s, i + 1);
      assert s[i..] == [s[i]] + s[i + 1..];
    }
  }

  /** No comment opener survives, terminated or not, and stripping again changes nothing. */
  lemma StripIdempotent(s: string)
    ensures NoOpener(Strip(s))
    ensures Strip(Strip(s)) == Strip(s)
  {
    StrippedHasNoOpener(s, 0);
    NothingToStrip(Strip(s), 0);
  }

  // ----- Nested comments as trees

  datatype Part = Text(c: char) | Nested(body: seq<Part>)

  function Render(parts: seq<Part>): string {
    if parts == [] then "" else RenderPart(parts[0]) + Render(parts[1..])
  }

  function RenderPart(p: Part): string {
    match p
    case Text(c) => [c]
    case Nested(body) => OPENER + Render(body) + CLOSER
  }

  /** No plain character forms a marker with the character after it; `after` follows `parts`. */
  predicate Clean(parts: seq<Part>, after: string) {
    parts == [] ||
    var follow := Render(parts[1..]) + after;
    && Clean(parts[1..], after)
    && (match parts[0]
        case Text(c) => !OpensAt([c] + follow, 0) && !ClosesAt([c] + follow, 0)
        case Nested(body) => Clean(body, CLOSER + follow))
  }

  /** The same position by recursive descent: an inner block is skipped by a call of its own. */
  function SkipBlock(s: string, i: nat): (e: nat)
    requires i <= |s|
    ensures i <= e <= |s|
    decreases |s| - i
  {
    if i == |s| then i
    else if OpensAt(s, i) then SkipBlock(s, SkipBlock(s, i + 2))
    else if ClosesAt(s, i) then i + 2
    else SkipBlock(s, i + 1)
  }

  lemma {:induction false} ExitInTwo(s: string, i: nat, inner: nat, outer: nat)
    requires i <= |s|
    ensures Exit(s, i, inner + outer) == Exit(s, Exit(s, i, inner), outer)
    decreases |s| - i
  {
    if inner > 0 && i < |s| {
      if OpensAt(s, i) {
        ExitInTwo(s, i + 2, inner + 1, outer);
      } else if ClosesAt(s, i) {
        ExitInTwo(s, i + 2, inner - 1, outer);
      } else {
        ExitInTwo(s, i + 1, inner, outer);
      }
    }
  }

  /** Counting depth and descending recursively leave a block at the same place. */
  lemma {:induction false} CounterIsNesting(s: string, i: nat)
    requires i <= |s|
    ensures Exit(s, i, 1) == SkipBlock(s, i)
    decreases |s| - i
  {
    if i < |s| {
      if OpensAt(s, i) {
        ExitInTwo(s, i + 2, 1, 1);
        CounterIsNesting(s, i + 2);
        CounterIsNesting(s, Exit(s, i + 2, 1));
      } else if !ClosesAt(s, i) {
        CounterIsNesting(s, i + 1);
      }
    }
  }

  /** `t` is `s` with `n` characters in front. */
  ghost predicate Shifted(s: string, t: string, n: nat) {
    |t| == n + |s| && forall k :: 0 <= k < |s| ==> s[k] == t[n + k]
  }

  lemma {:induction false} ExitShift(s: string, t: string, n: nat, i: nat, depth: nat)
    requires Shifted(s, t, n) && i <= |s|
    ensures Exit(t, n + i, depth) == n + Exit(s, i, depth)
    decreases |s| - i
  {
    if i < |s| && depth > 0 {
      assert OpensAt(t, n + i) <==> OpensAt(s, i);
      assert ClosesAt(t, n + i) <==> ClosesAt(s, i);
      if OpensAt(s, i) {
        ExitShift(s, t, n, i + 2, depth + 1);
      } else if ClosesAt(s, i) {
        ExitShift(s, t, n, i + 2, depth - 1);
      } else {
        ExitShift(s, t, n, i + 1, depth);
      }
    }
  }

  /** Reading written-out parts at some depth consumes exactly those parts. */
  lemma {:induction false} ExitRendered(parts: seq<Part>, after: string, depth: nat)
    requires Clean(parts, after) && depth > 0
    ensures Exit(Render(parts) + after, 0, depth) == |Render(parts)| + Exit(after, 0, depth)
    decreases |Render(parts)|, 1
  {
    var s := Render(parts) + after;
    if parts == [] {
      assert s == after;
    } else {
      var rest := Render(parts[1..]);
      var follow := rest + after;
      var head := RenderPart(parts[0]);
      assert Render(parts) == head + rest;
      assert s == head + follow;
      ExitRendered(parts[1..], after, depth);
      match parts[0]
      case Text(c) => ExitShift(follow, s, |head|, 0, depth);
      case Nested(body) => ExitNested(body, follow, depth);
    }
  }

  lemma {:induction false} ExitNested(body: seq<Part>, follow: string, depth: nat)
    requires Clean(body, CLOSER + follow)
    ensures
      var head := RenderPart(Nested(body));
      Exit(head + follow, 0, depth + 1) == |head| + Exit(follow, 0, depth + 1)
      && Exit(head + follow, 2, depth + 1) == |head| + Exit(follow, 0, depth)
    decreases |Render(body)|, 2
  {
    var head := RenderPart(Nested(body));
    ExitRendered(body, CLOSER + follow, depth + 1);
    ExitRendered(body, CLOSER + follow, depth + 2);
    ExitAround(Render(body), follow, depth + 1);
    ExitAround(Render(body), follow, depth + 2);
    assert head + follow == OPENER + (Render(body) + (CLOSER + follow));
    ExitOpened(Render(body) + (CLOSER + follow), depth + 1);
  }

  lemma ExitClosed(follow: string, d: nat)
    requires d > 0
    ensures Exit(CLOSER + follow, 0, d) == 2 + Exit(follow, 0, d - 1)
  {
    var close := CLOSER + follow;
    assert ClosesAt(close, 0) && !OpensAt(close, 0);
    ExitShift(follow, close, 2, 0, d - 1);
  }

  /** Behind an opener, text that is consumed at its depth is followed by its closer. */
  lemma ExitAround(inner: string, follow: string, d: nat)
    requires d > 0 && Exit(inner + (CLOSER + follow), 0, d) == |inner| + Exit(CLOSER + follow, 0, d)
    ensures Exit(OPENER + (inner + (CLOSER + follow)), 2, d) == |inner| + 4 + Exit(follow, 0, d - 1)
  {
    var close := CLOSER + follow;
    ExitShift(inner + close, OPENER + (inner + close), 2, 0, d);
    ExitClosed(follow, d);
  }

  lemma ExitOpened(text: string, d: nat)
    requires d > 0
    ensures Exit(OPENER + text, 0, d) == Exit(OPENER + text, 2, d + 1)
  {
    assert OpensAt(OPENER + text, 0);
  }

  lemma BlockEnds(s: string, i: nat, body: seq<Part>, after: string)
    requires i <= |s| && s[i..] == RenderPart(Nested(body)) + after
    requires Clean(body, CLOSER + after)
    ensures OpensAt(s, i) && CodeEnd(s, i) == i + |RenderPart(Nested(body))|
    ensures s[CodeEnd(s, i)..] == after
  {
    var block := RenderPart(Nested(body));
    var tail := block + after;
    ExitNested(body, after, 0);
    assert forall k :: 0 <= k < |tail| ==> tail[k] == s[i..][k];
    ExitShift(tail, s, i, 2, 1);
    assert tail[0] == '/' && tail[1] == '-';
    assert s[i + |block|..] == s[i..][|block|..] == tail[|block|..] == after;
  }

  lemma StripBlock(s: string, i: nat, e: nat)
    requires OpensAt(s, i) && e == CodeEnd(s, i)
    ensures StripFrom(s, i) == Blank(s[i..e]) + StripFrom(s, e)
  {
  }

  /** Wherever a code position of any text meets a block comment written out from a tree, however
      deep, exactly that comment is blanked and reading resumes as code right behind it. */
  lemma {:induction false} BlockStripped(s: string, i: nat, e: nat, body: seq<Part>, after: string)
    requires i <= |s| && s[i..] == RenderPart(Nested(body)) + after
    requires e == i + |RenderPart(Nested(body))| && Clean(body, CLOSER + after)
    ensures StripFrom(s, i) == Blank(s[i..e]) + StripFrom(s, e)
  {
    BlockEnds(s, i, body, after);
    StripBlock(s, i, e);
  }

  // ----- Whole documents

  /** A text as a reader takes it apart: code characters, line comments without their line end, block comments. */
  datatype Piece = Code(c: char) | Line(text: string) | Block(body: seq<Part>)

  function RenderPiece(p: Piece): string {
    match p
    case Code(c) => [c]
    case Line(text) => "--" + text
    case Block(body) => RenderPart(Nested(body))
  }

  function RenderAll(ps: seq<Piece>): string {
    if ps == [] then "" else RenderPiece(ps[0]) + RenderAll(ps[1..])
  }

  /** Code as it is, and a blank for every character of a comment but a line end. */
  function BlankPiece(p: Piece): string {
    if p.Code? then [p.c] else Blank(RenderPiece(p))
  }

  function BlankAll(ps: seq<Piece>): string {
    if ps == [] then "" else BlankPiece(ps[0]) + BlankAll(ps[1..])
  }

  /** Code opens no comment with what follows it, a line comment reaches to a line end or the end of the text, and
      the markers in a block comment are those of its tree. */
  predicate Fits(p: Piece, after: string) {
    match p
    case Code(c) => after != "" && after[0] == '-' ==> c != '/' && c != '-'
    case Line(text) => '\n' !in text && (after == "" || after[0] == '\n')
    case Block(body) => Clean(body, CLOSER + after)
  }

  predicate Written(ps: seq<Piece>) {
    forall k :: 0 <= k < |ps| ==> Fits(ps[k], RenderAll(ps[k + 1..]))
  }

  lemma {:induction false} LineEnds(s: string, i: nat, e: nat)
    requires i <= e <= |s| && (e == |s| || s[e] == '\n') && forall k :: i <= k < e ==> s[k] != '\n'
    ensures SkipLine(s, i) == e
    decreases e - i
  {
    if i < e {
      LineEnds(s, i + 1, e);
    }
  }

  lemma LineOpens(s: string, i: nat, e: nat, text: string)
    requires i <= e <= |s| && s[i..e] == "--" + text && '\n' !in text
    ensures e >= i + 2 && LineAt(s, i) && !OpensAt(s, i)
    ensures forall k :: i <= k < e ==> s[k] != '\n'
  {
    var line := "--" + text;
    assert |s[i..e]| == |line|;
    forall k | i <= k < e
      ensures s[k] == line[k - i]
    {
      assert s[k] == s[i..e][k - i];
    }
    forall k | i <= k < e
      ensures s[k] != '\n'
    {
      assert k >= i + 2 ==> line[k - i] == text[k - i - 2] && text[k - i - 2] in text;
    }
  }

  /** A line comment is blanked up to the line end, which stays. */
  lemma LineStripped(s: string, i: nat, e: nat, text: string)
    requires i <= e <= |s| && s[i..e] == "--" + text && '\n' !in text
    requires e < |s| ==> s[e] == '\n'
    ensures StripFrom(s, i) == Blank(s[i..e]) + StripFrom(s, e)
  {
    LineOpens(s, i, e, text);
    LineEnds(s, i + 1, e);
    StripLine(s, i, e);
  }

  lemma StripLine(s: string, i: nat, e: nat)
    requires LineAt(s, i) && !OpensAt(s, i) && e == CodeEnd(s, i)
    ensures StripFrom(s, i) == Blank(s[i..e]) + StripFrom(s, e)
  {
  }

  lemma CodeStripped(s: string, i: nat, c: char, after: string)
    requires i <= |s| && s[i..] == [c] + after
    requires after != "" && after[0] == '-' ==> c != '/' && c != '-'
    ensures s[i + 1..] == after && StripFrom(s, i) == [c] + StripFrom(s, i + 1)
  {
    assert s[i] == s[i..][0] && s[i + 1..] == s[i..][1..];
    assert i + 1 < |s| ==> s[i + 1] == after[0];
    assert IsCode(s, i, 0);
  }

  lemma SliceIs(s: string, i: nat, part: string, after: string)
    requires i <= |s| && s[i..] == part + after
    ensures i + |part| <= |s| && s[i..i + |part|] == part && s[i + |part|..] == after
  {
    assert s[i..i + |part|] == s[i..][..|part|];
    assert s[i + |part|..] == s[i..][|part|..];
  }

  lemma BlankSlice(s: string, i: nat, e: nat, block: string, rest: string)
    requires i <= e <= |s| && s[i..e] == block && StripFrom(s, i) == Blank(s[i..e]) + rest
    ensures StripFrom(s, i) == Blank(block) + rest
  {
  }

  lemma NestedStripped(s: string, i: nat, e: nat, body: seq<Part>, after: string)
    requires i <= e <= |s| && s[i..] == RenderPart(Nested(body)) + after && s[i..e] == RenderPart(Nested(body))
    requires Clean(body, CLOSER + after)
    ensures StripFrom(s, i) == Blank(RenderPart(Nested(body))) + StripFrom(s, e)
  {
    BlockStripped(s, i, e, body, after);
    BlankSlice(s, i, e, RenderPart(Nested(body)), StripFrom(s, e));
  }

  lemma CodePiece(s: string, i: nat, e: nat, c: char, after: string)
    requires i <= e <= |s| && s[i..] == [c] + after && s[i..e] == [c]
    requires after != "" && after[0] == '-' ==> c != '/' && c != '-'
    ensures StripFrom(s, i) == [c] + StripFrom(s, e)
  {
    assert |s[i..e]| == 1;
    CodeStripped(s, i, c, after);
  }

  lemma LinePiece(s: string, i: nat, e: nat, line: string, text: string, after: string)
    requires i <= e <= |s| && line == "--" + text && s[i..e] == line && s[e..] == after
    requires '\n' !in text && (after == "" || after[0] == '\n')
    ensures StripFrom(s, i) == Blank(line) + StripFrom(s, e)
  {
    assert e < |s| ==> s[e] == s[e..][0];
    LineStripped(s, i, e, text);
    BlankSlice(s, i, e, line, StripFrom(s, e));
  }

  lemma BlockPiece(s: string, i: nat, e: nat, p: Piece, after: string)
    requires p.Block? && i <= e <= |s| && s[i..] == RenderPiece(p) + after && s[i..e] == RenderPiece(p)
    requires Fits(p, after)
    ensures StripFrom(s, i) == BlankPiece(p) + StripFrom(s, e)
  {
    NestedStripped(s, i, e, p.body, after);
  }

  lemma PieceStripped(s: string, i: nat, e: nat, p: Piece, after: string)
    requires i <= e <= |s| && s[i..] == RenderPiece(p) + after && s[i..e] == RenderPiece(p) && Fits(p, after)
    ensures StripFrom(s, i) == BlankPiece(p) + StripFrom(s, e)
  {
    if p.Block? {
      BlockPiece(s, i, e, p, after);
    } else if p.Line? {
      SliceIs(s, i, RenderPiece(p), after);
      LinePiece(s, i, e, RenderPiece(p), p.text, after);
    } else {
      CodePiece(s, i, e, p.c, after);
    }
  }

  lemma WrittenTail(ps: seq<Piece>)
    requires ps != [] && Written(ps)
    ensures Fits(ps[0], RenderAll(ps[1..])) && Written(ps[1..])
  {
    assert ps[0 + 1..] == ps[1..];
    forall k | 0 <= k < |ps[1..]|
      ensures Fits(ps[1..][k], RenderAll(ps[1..][k + 1..]))
    {
      assert ps[1..][k] == ps[k + 1] && ps[1..][k + 1..] == ps[k + 1 + 1..];
    }
  }

  /** Stripping blanks exactly the comments of a written document: line comments up to their line ends, block comments
      with all that is nested in them, and no code. */
  lemma {:induction false} DocumentStripped(s: string, i: nat, ps: seq<Piece>)
    requires i <= |s| && s[i..] == RenderAll(ps) && Written(ps)
    ensures StripFrom(s, i) == BlankAll(ps)
    decreases |ps|
  {
    if ps != [] {
      WrittenTail(ps);
      var e := i + |RenderPiece(ps[0])|;
      SliceIs(s, i, RenderPiece(ps[0]), RenderAll(ps[1..]));
      PieceStripped(s, i, e, ps[0], RenderAll(ps[1..]));
      DocumentStripped(s, e, ps[1..]);
    }
  }

  /** A block comment that nothing closes reaches to the end of the text. */
  lemma {:induction false} NeverClosed(s: string, i: nat, depth: nat)
    requires i <= |s| && depth > 0 && forall k :: i <= k < |s| ==> !ClosesAt(s, k)
    ensures Exit(s, i, depth) == |s|
    decreases |s| - i
  {
    if i < |s| {
      if OpensAt(s, i) {
        NeverClosed(s, i + 2, depth + 1);
      } else {
        NeverClosed(s, i + 1, depth);
      }
    }
  }

  lemma UnclosedStripped(s: string, i: nat)
    requires OpensAt(s, i) && forall k :: i + 2 <= k < |s| ==> !ClosesAt(s, k)
    ensures StripFrom(s, i) == Blank(s[i..])
  {
    NeverClosed(s, i + 2, 1);
    assert s[i..|s|] == s[i..];
    assert StripFrom(s, |s|) == "";
  }
}
