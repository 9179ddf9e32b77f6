/** File names of src/mvpc/nexus/manifest_ledger.py: a zero-padded sequence number, a
    dash, the start of the manifest hash and a suffix. Different sequence numbers
    never share a name, and the number can be read back from its digits, however
    many there are. */
module ManifestNames {

  const INDEX_FILE := "ledger-index.json"

  function Digit(d: nat): char
    requires d < 10
  {
    ['0', '1', '2', '3', '4', '5', '6', '7', '8', '9'][d]
  }

  function Decimal(n: nat): (s: string)
    ensures s != "" && forall k :: 0 <= k < |s| ==> '0' <= s[k] <= '9'
  {
    if n < 10 then [Digit(n)] else Decimal(n / 10) + [Digit(n % 10)]
  }

  function Zeros(n: nat): (s: string)
    ensures |s| == n && forall k :: 0 <= k < n ==> s[k] == '0'
  {
    seq(n, k => '0')
  }

  function Padded(n: nat): (s: string)
    ensures s != "" && forall k :: 0 <= k < |s| ==> '0' <= s[k] <= '9'
  {
    var s := Decimal(n);
    if |s| < 6 then Zeros(6 - |s|) + s else s
  }

  function Stem(n: nat, hash: string): string {
    Padded(n) + "-" + (if |hash| < 16 then hash else hash[..16])
  }

  function JsonName(n: nat, hash: string): string {
    Stem(n, hash) + ".json"
  }

  function MarkdownName(n: nat, hash: string): string {
    Stem(n, hash) + ".md"
  }

  // ----- Names determine the sequence number

  function DigitValue(c: char): int {
    c as int - '0' as int
  }

  function Number(s: string): int {
    if s == "" then 0 else 10 * Number(s[..|s| - 1]) + DigitValue(s[|s| - 1])
  }

  lemma DigitReads(d: nat)
    requires d < 10
    ensures DigitValue(Digit(d)) == d
  {
  }

  lemma NumberAppend(s: string, c: char)
    ensures Number(s + [c]) == 10 * Number(s) + DigitValue(c)
  {
    assert (s + [c])[..|s + [c]| - 1] == s;
  }

  lemma {:induction false} NumberOfDecimal(n: nat)
    ensures Number(Decimal(n)) == n
  {
    DigitReads(n % 10);
    if n < 10 {
      NumberAppend("", Digit(n));
      assert [Digit(n)] == "" + [Digit(n)];
    } else {
      NumberOfDecimal(n / 10);
      NumberAppend(Decimal(n / 10), Digit(n % 10));
    }
  }

  lemma {:induction false} NumberOfZeros(z: nat, s: string)
    ensures Number(Zeros(z) + s) == Number(s)
  {
    var t := Zeros(z) + s;
    if s != "" {
      assert t[..|t| - 1] == Zeros(z) + s[..|s| - 1];
      NumberOfZeros(z, s[..|s| - 1]);
    } else if z > 0 {
      assert t[..|t| - 1] == Zeros(z - 1) + "";
      NumberOfZeros(z - 1, "");
    }
  }

  lemma NumberOfPadded(n: nat)
    ensures Number(Padded(n)) == n
  {
    NumberOfDecimal(n);
    if |Decimal(n)| < 6 {
      NumberOfZeros(6 - |Decimal(n)|, Decimal(n));
    }
  }

  lemma PrefixUpToDash(a: string, b: string, x: string, y: string)
    requires a + "-" + x == b + "-" + y
    requires forall k :: 0 <= k < |a| ==> a[k] != '-'
    requires forall k :: 0 <= k < |b| ==> b[k] != '-'
    ensures a == b
  {
    var s, t := a + "-" + x, b + "-" + y;
    assert s[|a|] == '-' && t[|b|] == '-';
    assert forall k :: 0 <= k < |a| ==> s[k] == a[k];
    assert forall k :: 0 <= k < |b| ==> t[k] == b[k];
    assert |a| >= |b| && |b| >= |a|;
    assert a == s[..|a|] && b == t[..|b|];
  }

  lemma NamesApart(n: nat, h: string, ending: string, m: nat, g: string, other: string)
    requires Stem(n, h) + ending == Stem(m, g) + other
    ensures n == m
  {
    var x, y := (if |h| < 16 then h else h[..16]) + ending, (if |g| < 16 then g else g[..16]) + other;
    assert Stem(n, h) + ending == Padded(n) + "-" + x;
    assert Stem(m, g) + other == Padded(m) + "-" + y;
    PrefixUpToDash(Padded(n), Padded(m), x, y);
    NumberOfPadded(n);
    NumberOfPadded(m);
  }

  lemma KindsApart(n: nat, h: string)
    ensures JsonName(n, h) != MarkdownName(n, h)
    ensures JsonName(n, h) != INDEX_FILE && MarkdownName(n, h) != INDEX_FILE
  {
    assert |JsonName(n, h)| == |Stem(n, h)| + 5 && |MarkdownName(n, h)| == |Stem(n, h)| + 3;
    assert '0' <= Padded(n)[0] <= '9';
    assert JsonName(n, h)[0] == Padded(n)[0] && MarkdownName(n, h)[0] == Padded(n)[0];
    assert INDEX_FILE[0] == 'l';
  }
}
