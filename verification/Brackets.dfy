/** Two independent bracket recognisers: `_balanced_delimiters` of
    src/mvpc/nexus/ast_normalizer.py and `find_paren_groups` of
    src/mvpc/backends/lean.py, both against one grammar. */
module Brackets {
  import opened Wrappers

  predicate IsOpen(c: char) {
    c in {'(', '[', '{'}
  }

  predicate IsClose(c: char) {
    c in {')', ']', '}'}
  }

  function Closing(c: char): (d: char)
    requires IsOpen(c)
    ensures IsClose(d)
  {
    if c == '(' then ')' else if c == '[' then ']' else '}'
  }

  function Opening(c: char): (d: char)
    requires IsClose(c)
    ensures IsOpen(d) && Closing(d) == c
  {
    if c == ')' then '(' else if c == ']' then '[' else '{'
  }

  // ----- The grammar

  datatype Text = Nil | Plain(c: char, rest: Text) | Group(open: char, inner: Text, rest: Text)

  ghost predicate WellFormed(t: Text) {
    match t
    case Nil => true
    case Plain(c, rest) => !IsOpen(c) && !IsClose(c) && WellFormed(rest)
    case Group(open, inner, rest) => IsOpen(open) && WellFormed(inner) && WellFormed(rest)
  }

  ghost function Write(t: Text): string
    requires WellFormed(t)
  {
    match t
    case Nil => ""
    case Plain(c, rest) => [c] + Write(rest)
    case Group(open, inner, rest) => [open] + Write(inner) + [Closing(open)] + Write(rest)
  }

  /** `s` can be written from the grammar. */
  ghost predicate Balanced(s: string) {
    exists t: Text :: WellFormed(t) && Write(t) == s
  }

  // ----- The stack machine

  /** The stack after one character; `None` for a closer that does not match. */
  function Push(stack: Option<string>, c: char): Option<string> {
    if stack.None? then None
    else
      var st := stack.value;
      if IsOpen(c) then Some(st + [c])
      else if IsClose(c) then
        if st != "" && st[|st| - 1] == Opening(c) then Some(st[..|st| - 1]) else None
      else stack
  }

  function Run(stack: Option<string>, s: string): Option<string> {
    if s == "" then stack else Push(Run(stack, s[..|s| - 1]), s[|s| - 1])
  }

  method BalancedDelimiters(source: string) returns (ok: bool)
    ensures ok <==> Run(Some(""), source) == Some("")
  {
    var stack := "";
    for k := 0 to |source|
      invariant Run(Some(""), source[..k]) == Some(stack)
    {
      var c := source[k];
      assert source[..k + 1][..k] == source[..k];
      if IsOpen(c) {
        stack := stack + [c];
      } else if IsClose(c) {
        if stack == "" || stack[|stack| - 1] != Opening(c) {
          RunStuck(source, k + 1);
          return false;
        }
        stack := stack[..|stack| - 1];
      }
    }
    assert source[..|source|] == source;
    ok := stack == "";
  }

  lemma {:induction false} RunStuck(s: string, k: nat)
    requires k <= |s| && Run(Some(""), s[..k]).None?
    ensures Run(Some(""), s).None?
    decreases |s|
  {
    if k < |s| {
      assert s[..|s| - 1][..k] == s[..k];
      RunStuck(s[..|s| - 1], k);
    } else {
      assert s[..k] == s;
    }
  }

  lemma {:induction false} RunAppend(stack: Option<string>, s: string, t: string)
    ensures Run(stack, s + t) == Run(Run(stack, s), t)
  {
    if t == "" {
      assert s + t == s;
    } else {
      assert (s + t)[..|s + t| - 1] == s + t[..|t| - 1];
      RunAppend(stack, s, t[..|t| - 1]);
    }
  }

  lemma {:induction false} RunWritten(st: string, t: Text)
    requires WellFormed(t)
    ensures Run(Some(st), Write(t)) == Some(st)
    decreases t
  {
    match t
    case Nil =>
    case Plain(c, rest) =>
      RunAppend(Some(st), [c], Write(rest));
      RunWritten(st, rest);
    case Group(open, inner, rest) =>
      var close := Closing(open);
      RunAppend(Some(st), [open], Write(inner));
      RunWritten(st + [open], inner);
      RunAppend(Some(st), [open] + Write(inner), [close]);
      assert (st + [open])[..|st|] == st;
      RunAppend(Some(st), [open] + Write(inner) + [close], Write(rest));
      RunWritten(st, rest);
  }

  /** Texts separated by the closers that `stack` still expects, innermost first. */
  ghost predicate Segments(ts: seq<Text>, stack: string) {
    && |ts| == |stack| + 1
    && (forall k :: 0 <= k < |ts| ==> WellFormed(ts[k]))
    && (forall k :: 0 <= k < |stack| ==> IsOpen(stack[k]))
  }

  ghost function Assemble(ts: seq<Text>, stack: string): string
    requires Segments(ts, stack)
  {
    if stack == "" then Write(ts[0])
    else Write(ts[0]) + [Closing(stack[|stack| - 1])] + Assemble(ts[1..], stack[..|stack| - 1])
  }

  lemma RunFront(stack: string, c: char, tail: string)
    ensures Run(Some(stack), [c] + tail) == Run(Push(Some(stack), c), tail)
  {
    RunAppend(Some(stack), [c], tail);
  }

  /** An opener in front closes over the first two segments. */
  lemma OpenSegments(us: seq<Text>, stack: string, c: char) returns (ts: seq<Text>)
    requires IsOpen(c) && Segments(us, stack + [c])
    ensures Segments(ts, stack) && Assemble(ts, stack) == [c] + Assemble(us, stack + [c])
  {
    var vs := us[1..];
    ts := [Group(c, us[0], us[1])] + us[2..];
    assert forall k :: 0 <= k < |stack| ==> (stack + [c])[k] == stack[k];
    assert (stack + [c])[..|stack|] == stack;
    var pre := [c] + Write(us[0]) + [Closing(c)];
    assert Write(ts[0]) == pre + Write(vs[0]);
    assert ts[1..] == vs[1..];
    assert Assemble(us, stack + [c]) == Write(us[0]) + [Closing(c)] + Assemble(vs, stack);
  }

  lemma CloseSegments(us: seq<Text>, stack: string, c: char) returns (ts: seq<Text>)
    requires IsClose(c) && stack != "" && stack[|stack| - 1] == Opening(c) && Segments(us, stack[..|stack| - 1])
    ensures Segments(ts, stack) && Assemble(ts, stack) == [c] + Assemble(us, stack[..|stack| - 1])
  {
    ts := [Nil] + us;
    assert ts[1..] == us;
  }

  lemma PlainSegments(us: seq<Text>, stack: string, c: char) returns (ts: seq<Text>)
    requires !IsOpen(c) && !IsClose(c) && Segments(us, stack)
    ensures Segments(ts, stack) && Assemble(ts, stack) == [c] + Assemble(us, stack)
  {
    ts := [Plain(c, us[0])] + us[1..];
    assert ts[1..] == us[1..];
  }

  /** A text that empties the stack is a sequence of well-formed texts between the closers. */
  lemma {:induction false} Parse(stack: string, s: string) returns (ts: seq<Text>)
    requires forall k :: 0 <= k < |stack| ==> IsOpen(stack[k])
    requires Run(Some(stack), s) == Some("")
    ensures Segments(ts, stack) && Assemble(ts, stack) == s
    decreases |s|
  {
    if s == "" {
      return [Nil];
    }
    var c, tail := s[0], s[1..];
    assert s == [c] + tail;
    RunFront(stack, c, tail);
    if Push(Some(stack), c).None? {
      RunNone(tail);
    } else {
      var us := Parse(Push(Some(stack), c).value, tail);
      if IsOpen(c) {
        ts := OpenSegments(us, stack, c);
      } else if IsClose(c) {
        ts := CloseSegments(us, stack, c);
      } else {
        ts := PlainSegments(us, stack, c);
      }
    }
  }

  lemma {:induction false} RunNone(s: string)
    ensures Run(None, s).None?
  {
    if s != "" {
      RunNone(s[..|s| - 1]);
    }
  }

  /** The recogniser accepts exactly the strings of the grammar. */
  lemma BalancedIff(s: string)
    ensures Balanced(s) <==> Run(Some(""), s) == Some("")
  {
    if Run(Some(""), s) == Some("") {
      var ts := Parse("", s);
      assert Write(ts[0]) == s;
    }
    forall t: Text | WellFormed(t) && Write(t) == s
      ensures Run(Some(""), s) == Some("")
    {
      RunWritten("", t);
    }
  }

  // ----- Group extraction

  datatype Span = Span(from: nat, to: nat)

  /** The extractor after some prefix: finished groups, open brackets, start of the open group. */
  datatype State = State(groups: seq<Span>, stack: string, start: Option<nat>)

  function Step(st: State, i: nat, c: char): State {
    if IsOpen(c) then
      State(st.groups, st.stack + [c], if st.stack == "" then Some(i) else st.start)
    else if IsClose(c) then
      if st.stack != "" && st.stack[|st.stack| - 1] == Opening(c) then
        var stack := st.stack[..|st.stack| - 1];
        if stack == "" && st.start.Some? then State(st.groups + [Span(st.start.value, i + 1)], stack, None)
        else State(st.groups, stack, st.start)
      else State(st.groups, "", None)
    else st
  }

  function Scan(s: string): State {
    if s == "" then State([], "", None) else Step(Scan(s[..|s| - 1]), |s| - 1, s[|s| - 1])
  }

  predicate SpansIn(spans: seq<Span>, n: nat) {
    forall k | 0 <= k < |spans| :: spans[k].from < spans[k].to <= n
  }

  function Slices(s: string, spans: seq<Span>): (r: seq<string>)
    requires SpansIn(spans, |s|)
    ensures |r| == |spans|
    ensures forall k :: 0 <= k < |r| ==> r[k] == s[spans[k].from..spans[k].to]
  {
    seq(|spans|, k requires 0 <= k < |spans| => s[spans[k].from..spans[k].to])
  }

  /** No nonempty prefix is balanced. */
  ghost predicate Pending(s: string) {
    forall k :: 0 < k <= |s| ==> Run(Some(""), s[..k]) != Some("")
  }

  /** Balanced, and no proper nonempty prefix is. */
  ghost predicate Primitive(s: string) {
    s != "" && Run(Some(""), s) == Some("") && Pending(s[..|s| - 1])
  }

  lemma PendingExtend(s: string, c: char)
    requires Pending(s) && Run(Some(""), s + [c]) != Some("")
    ensures Pending(s + [c])
  {
    forall k | 0 < k <= |s + [c]|
      ensures Run(Some(""), (s + [c])[..k]) != Some("")
    {
      if k <= |s| {
        assert (s + [c])[..k] == s[..k];
      } else {
        assert (s + [c])[..k] == s + [c];
      }
    }
  }

  /** The finished groups: within bounds, in order, each primitive. */
  ghost predicate GroupsOk(s: string, groups: seq<Span>) {
    && SpansIn(groups, |s|)
    && (forall k :: 0 <= k < |groups| - 1 ==> groups[k].to <= groups[k + 1].from)
    && (forall k :: 0 <= k < |groups| ==> Primitive(s[groups[k].from..groups[k].to]))
  }

  /** The open group: it starts behind the finished ones and its text leads to `stack`. */
  ghost predicate OpenOk(s: string, st: State) {
    && (st.stack == "" <==> st.start.None?)
    && (st.start.Some? ==>
        && st.start.value < |s|
        && (st.groups != [] ==> st.groups[|st.groups| - 1].to <= st.start.value)
        && Run(Some(""), s[st.start.value..]) == Some(st.stack)
        && Pending(s[st.start.value..]))
  }

  lemma GroupsKeep(p: string, c: char, groups: seq<Span>)
    requires GroupsOk(p, groups)
    ensures GroupsOk(p + [c], groups)
  {
    forall k | 0 <= k < |groups|
      ensures Primitive((p + [c])[groups[k].from..groups[k].to])
    {
      assert (p + [c])[groups[k].from..groups[k].to] == p[groups[k].from..groups[k].to];
    }
  }

  lemma GroupsAdd(s: string, groups: seq<Span>, a: nat)
    requires GroupsOk(s, groups) && a < |s| && Primitive(s[a..])
    requires groups != [] ==> groups[|groups| - 1].to <= a
    ensures GroupsOk(s, groups + [Span(a, |s|)])
  {
    assert s[a..|s|] == s[a..];
  }

  /** The open group grows by a character that leaves the stack nonempty. */
  lemma OpenGrows(w: string, stack: string, c: char)
    requires Pending(w) && Run(Some(""), w) == Some(stack)
    requires Push(Some(stack), c).Some? && Push(Some(stack), c) != Some("")
    ensures Pending(w + [c]) && Run(Some(""), w + [c]) == Push(Some(stack), c)
  {
    PendingExtend(w, c);
  }

  lemma OpenStarts(c: char)
    requires IsOpen(c)
    ensures Pending([c]) && Run(Some(""), [c]) == Some([c])
  {
    assert "" + [c] == [c];
    OpenGrows("", "", c);
  }

  lemma StepOpen(p: string, st: State, c: char)
    requires GroupsOk(p, st.groups) && OpenOk(p, st)
    ensures OpenOk(p + [c], Step(st, |p|, c))
  {
    if st.start.Some? {
      var w := p[st.start.value..];
      assert (p + [c])[st.start.value..] == w + [c];
      if Step(st, |p|, c).start.Some? {
        OpenGrows(w, st.stack, c);
      }
    } else if IsOpen(c) {
      assert (p + [c])[|p|..] == [c];
      assert Step(st, |p|, c) == State(st.groups, [c], Some(|p|));
      OpenStarts(c);
    }
  }

  lemma StepGroups(p: string, st: State, c: char)
    requires GroupsOk(p, st.groups) && OpenOk(p, st)
    ensures GroupsOk(p + [c], Step(st, |p|, c).groups)
  {
    GroupsKeep(p, c, st.groups);
    var next := Step(st, |p|, c);
    if next.groups != st.groups {
      var w := p[st.start.value..];
      assert (p + [c])[st.start.value..] == w + [c];
      GroupsAdd(p + [c], st.groups, st.start.value);
    }
  }

  lemma {:induction false} ScanOk(s: string)
    ensures GroupsOk(s, Scan(s).groups) && OpenOk(s, Scan(s))
  {
    if s != "" {
      var p, c := s[..|s| - 1], s[|s| - 1];
      assert s == p + [c];
      ScanOk(p);
      StepOpen(p, Scan(p), c);
      StepGroups(p, Scan(p), c);
    }
  }

  lemma ScanPrefix(s: string, i: nat)
    requires i <= |s|
    ensures SpansIn(Scan(s[..i]).groups, i)
    ensures Scan(s[..i]).start.Some? ==> Scan(s[..i]).start.value < i
    ensures i < |s| ==> Scan(s[..i + 1]) == Step(Scan(s[..i]), i, s[i])
  {
    ScanOk(s[..i]);
    if i < |s| {
      assert s[..i + 1][..i] == s[..i];
    }
  }

  lemma SlicesAppend(s: string, spans: seq<Span>, x: Span)
    requires SpansIn(spans, |s|) && x.from < x.to <= |s|
    ensures SpansIn(spans + [x], |s|)
    ensures Slices(s, spans + [x]) == Slices(s, spans) + [s[x.from..x.to]]
  {
  }

  method FindParenGroups(text: string) returns (groups: seq<string>)
    ensures SpansIn(Scan(text).groups, |text|)
    ensures groups == Slices(text, Scan(text).groups)
  {
    groups := [];
    var start: Option<nat> := None;
    var depth, stack := 0, "";
    ghost var spans := [];
    for i := 0 to |text|
      invariant Scan(text[..i]) == State(spans, stack, start)
      invariant SpansIn(spans, |text|) && groups == Slices(text, spans) && depth == |stack|
    {
      var ch := text[i];
      ScanPrefix(text, i);
      ScanPrefix(text, i + 1);
      if IsOpen(ch) {
        if depth == 0 {
          start := Some(i);
        }
        stack := stack + [ch];
        depth := depth + 1;
      } else if IsClose(ch) {
        if stack != "" && stack[|stack| - 1] == Opening(ch) {
          stack := stack[..|stack| - 1];
          depth := depth - 1;
          if depth == 0 && start.Some? {
            groups := groups + [text[start.value..i + 1]];
            SlicesAppend(text, spans, Span(start.value, i + 1));
            spans := spans + [Span(start.value, i + 1)];
            start := None;
          }
        } else {
          stack := "";
          depth := 0;
          start := None;
        }
      }
    }
    assert text[..|text|] == text;
  }

  lemma PrimitiveIsBalanced(w: string)
    requires Primitive(w)
    ensures Balanced(w)
    ensures forall j :: 0 < j < |w| ==> !Balanced(w[..j])
  {
    BalancedIff(w);
    forall j | 0 < j < |w|
      ensures !Balanced(w[..j])
    {
      BalancedIff(w[..j]);
      assert w[..|w| - 1][..j] == w[..j];
    }
  }

  /** On any input the slices are ordered, disjoint, balanced by the grammar, and cannot be split
      after a shorter balanced prefix. */
  lemma GroupsAreBalanced(s: string)
    ensures
      var groups := Scan(s).groups;
      && SpansIn(groups, |s|)
      && (forall k :: 0 <= k < |groups| - 1 ==> groups[k].to <= groups[k + 1].from)
      && (forall k :: 0 <= k < |groups| ==> Balanced(s[groups[k].from..groups[k].to]))
      && (forall k, m :: 0 <= k < |groups| && groups[k].from < m < groups[k].to ==> !Balanced(s[groups[k].from..m]))
  {
    ScanOk(s);
    var groups := Scan(s).groups;
    forall k | 0 <= k < |groups|
      ensures Balanced(s[groups[k].from..groups[k].to])
      ensures forall m :: groups[k].from < m < groups[k].to ==> !Balanced(s[groups[k].from..m])
    {
      PrimitiveIsBalanced(s[groups[k].from..groups[k].to]);
      forall m | groups[k].from < m < groups[k].to
        ensures !Balanced(s[groups[k].from..m])
      {
        assert s[groups[k].from..m] == s[groups[k].from..groups[k].to][..m - groups[k].from];
      }
    }
  }

  ghost predicate Covered(st: State, i: nat) {
    || (exists k :: 0 <= k < |st.groups| && st.groups[k].from <= i < st.groups[k].to)
    || (st.start.Some? && st.start.value <= i)
  }

  lemma GroupsStay(st: State, n: nat, c: char, i: nat)
    requires exists k :: 0 <= k < |st.groups| && st.groups[k].from <= i < st.groups[k].to
    ensures Covered(Step(st, n, c), i)
  {
    var k :| 0 <= k < |st.groups| && st.groups[k].from <= i < st.groups[k].to;
    assert Step(st, n, c).groups[k] == st.groups[k];
  }

  lemma CoveredStep(p: string, st: State, c: char, i: nat)
    requires GroupsOk(p, st.groups) && OpenOk(p, st) && i <= |p|
    requires Push(Some(st.stack), c).Some?
    requires if i < |p| then Covered(st, i) else IsOpen(c) || IsClose(c)
    ensures Covered(Step(st, |p|, c), i)
  {
    var next := Step(st, |p|, c);
    if i < |p| && exists k :: 0 <= k < |st.groups| && st.groups[k].from <= i < st.groups[k].to {
      GroupsStay(st, |p|, c, i);
    } else if next.groups != st.groups {
      assert next.groups[|st.groups|] == Span(st.start.value, |p| + 1);
    }
  }

  /** While no closer has failed to match, both machines hold the same stack and every bracket
      read lies in a finished group or in the open one. */
  lemma {:induction false} ScanCovers(s: string)
    requires Run(Some(""), s).Some?
    ensures Scan(s).stack == Run(Some(""), s).value
    ensures forall i :: 0 <= i < |s| && (IsOpen(s[i]) || IsClose(s[i])) ==> Covered(Scan(s), i)
  {
    if s != "" {
      var p, c := s[..|s| - 1], s[|s| - 1];
      ScanCovers(p);
      ScanOk(p);
      forall i | 0 <= i < |s| && (IsOpen(s[i]) || IsClose(s[i]))
        ensures Covered(Scan(s), i)
      {
        if i < |p| {
          assert p[i] == s[i];
        }
        CoveredStep(p, Scan(p), c, i);
      }
    }
  }

  /** On a balanced input the two functions agree: every bracket lies in exactly one slice. */
  lemma BalancedIsCovered(s: string, i: nat)
    requires Balanced(s) && i < |s| && (IsOpen(s[i]) || IsClose(s[i]))
    ensures exists k :: 0 <= k < |Scan(s).groups| && Scan(s).groups[k].from <= i < Scan(s).groups[k].to
    ensures forall j, k :: 0 <= j < k < |Scan(s).groups| ==>
      !(Scan(s).groups[j].from <= i < Scan(s).groups[j].to && Scan(s).groups[k].from <= i < Scan(s).groups[k].to)
  {
    BalancedIff(s);
    ScanCovers(s);
    ScanOk(s);
    assert Covered(Scan(s), i);
    forall j, k | 0 <= j < k < |Scan(s).groups|
      ensures Scan(s).groups[j].to <= Scan(s).groups[k].from
    {
      SpansOrdered(Scan(s).groups, |s|, j, k);
    }
  }

  lemma {:induction false} SpansOrdered(spans: seq<Span>, n: nat, j: nat, k: nat)
    requires SpansIn(spans, n) && j < k < |spans|
    requires forall k :: 0 <= k < |spans| - 1 ==> spans[k].to <= spans[k + 1].from
    ensures spans[j].to <= spans[k].from
    decreases k
  {
    if j < k - 1 {
      SpansOrdered(spans, n, j, k - 1);
    }
  }
}
