/** The string operations that records and plans rely on: blankness, stripping, lower case. */
module Text {
  import opened Wrappers

  /** Neither absent nor empty. */
  predicate Given(s: Option<string>) {
    s.Some? && s.value != ""
  }

  /** The code points that `str.strip` removes. */
  predicate IsSpace(c: char) {
    || 9 <= c as int <= 13
    || 28 <= c as int <= 32
    || c as int in {0x85, 0xA0, 0x1680, 0x2028, 0x2029, 0x202F, 0x205F, 0x3000}
    || 0x2000 <= c as int <= 0x200A
  }

  function StripLeft(s: string): string {
    if s != "" && IsSpace(s[0]) then StripLeft(s[1..]) else s
  }

  function StripRight(s: string): string {
    if s != "" && IsSpace(s[|s| - 1]) then StripRight(s[..|s| - 1]) else s
  }

  function Strip(s: string): string {
    StripRight(StripLeft(s))
  }

  /** Lower case: the ASCII letters, and the Kelvin sign, the only other character whose lower case is an
      ASCII letter. */
  function LowerChar(c: char): char {
    if 'A' <= c <= 'Z' then (c as int + 32) as char
    else if c as int == 0x212A then 'k'
    else c
  }

  function Lower(s: string): (r: string)
    ensures |r| == |s| && forall k :: 0 <= k < |s| ==> r[k] == LowerChar(s[k])
  {
    seq(|s|, k requires 0 <= k < |s| => LowerChar(s[k]))
  }

  predicate Tight(s: string) {
    s != "" ==> !IsSpace(s[0]) && !IsSpace(s[|s| - 1])
  }

  lemma {:induction false} StripRightShortens(s: string)
    ensures |StripRight(s)| <= |s|
    ensures |StripRight(s)| == |s| <==> StripRight(s) == s
    ensures StripRight(s) == s <==> (s == "" || !IsSpace(s[|s| - 1]))
  {
    if s != "" && IsSpace(s[|s| - 1]) {
      StripRightShortens(s[..|s| - 1]);
    }
  }

  lemma {:induction false} StripLeftShortens(s: string)
    ensures |StripLeft(s)| <= |s|
    ensures |StripLeft(s)| == |s| <==> StripLeft(s) == s
    ensures StripLeft(s) == s <==> (s == "" || !IsSpace(s[0]))
  {
    if s != "" && IsSpace(s[0]) {
      StripLeftShortens(s[1..]);
    }
  }

  /** Stripping changes a string exactly when one of its ends is white space, and then shortens it. */
  lemma StripKeepsTight(s: string)
    ensures |Strip(s)| <= |s|
    ensures |Strip(s)| == |s| <==> Tight(s)
    ensures Tight(s) ==> Strip(s) == s
  {
    StripLeftShortens(s);
    StripRightShortens(StripLeft(s));
  }

  predicate AllSpace(s: string) {
    forall k :: 0 <= k < |s| ==> IsSpace(s[k])
  }

  lemma {:induction false} StripLeftBlank(s: string)
    ensures AllSpace(StripLeft(s)) <==> AllSpace(s)
    ensures StripLeft(s) == "" || !IsSpace(StripLeft(s)[0])
  {
    if s != "" && IsSpace(s[0]) {
      StripLeftBlank(s[1..]);
    }
  }

  lemma {:induction false} StripRightBlank(s: string)
    ensures AllSpace(StripRight(s)) <==> AllSpace(s)
    ensures StripRight(s) == "" || !IsSpace(StripRight(s)[|StripRight(s)| - 1])
  {
    if s != "" && IsSpace(s[|s| - 1]) {
      StripRightBlank(s[..|s| - 1]);
    }
  }

  /** Nothing is left exactly of strings that are white space throughout. */
  lemma StripBlank(s: string)
    ensures Strip(s) == "" <==> AllSpace(s)
  {
    StripLeftBlank(s);
    StripRightBlank(StripLeft(s));
  }

  /** The white space of Python's strings, one code point after the other. */
  lemma SpacesAre(c: char)
    ensures IsSpace(c)
       <==> c in {'\t', '\n', '\U{0B}', '\U{0C}', '\r', '\U{1C}', '\U{1D}', '\U{1E}', '\U{1F}', ' ', '\U{85}', '\U{A0}',
                  '\U{1680}', '\U{2000}', '\U{2001}', '\U{2002}', '\U{2003}', '\U{2004}', '\U{2005}', '\U{2006}',
                  '\U{2007}', '\U{2008}', '\U{2009}', '\U{200A}', '\U{2028}', '\U{2029}', '\U{202F}', '\U{205F}',
                  '\U{3000}'}
  {
  }

  lemma {:induction false} StripLeftIs(s: string, pad: string, rest: string)
    requires s == pad + rest && AllSpace(pad) && (rest == "" || !IsSpace(rest[0]))
    ensures StripLeft(s) == rest
    decreases |pad|
  {
    if pad != "" {
      assert s[0] == pad[0] && s[1..] == pad[1..] + rest;
      StripLeftIs(s[1..], pad[1..], rest);
    } else {
      assert s == rest;
    }
  }

  lemma {:induction false} StripRightIs(s: string, rest: string, pad: string)
    requires s == rest + pad && AllSpace(pad) && (rest == "" || !IsSpace(rest[|rest| - 1]))
    ensures StripRight(s) == rest
    decreases |pad|
  {
    if pad != "" {
      var n := |pad| - 1;
      assert s[|s| - 1] == pad[n] && s[..|s| - 1] == rest + pad[..n];
      StripRightIs(s[..|s| - 1], rest, pad[..n]);
    } else {
      assert s == rest;
    }
  }

  /** Stripping takes the white space off both ends and nothing else. */
  lemma StripIs(before: string, rest: string, after: string)
    requires AllSpace(before) && AllSpace(after) && Tight(rest)
    ensures Strip(before + rest + after) == rest
  {
    var s := before + rest + after;
    if rest == "" {
      assert AllSpace(s);
      StripBlank(s);
    } else {
      assert s == before + (rest + after);
      StripLeftIs(s, before, rest + after);
      StripRightIs(rest + after, rest, after);
    }
  }

  /** Which characters lower case changes, and to what. */
  lemma LowerLetters(c: char, k: nat)
    requires k < 26
    ensures LowerChar("ABCDEFGHIJKLMNOPQRSTUVWXYZ"[k]) == "abcdefghijklmnopqrstuvwxyz"[k]
    ensures c !in "ABCDEFGHIJKLMNOPQRSTUVWXYZ" && c != '\U{212A}' ==> LowerChar(c) == c
    ensures LowerChar('\U{212A}') == 'k'
  {
    var upper, lower := "ABCDEFGHIJKLMNOPQRSTUVWXYZ", "abcdefghijklmnopqrstuvwxyz";
    assert upper[k] as int == 'A' as int + k && lower[k] as int == 'a' as int + k;
    if 'A' <= c <= 'Z' {
      assert upper[c as int - 'A' as int] == c;
    }
  }
}
