/**
 * Characters and bytes: the whitespace set of QChar::isSpace, the
 * QString::trimmed operation built on it, and QString::fromLatin1,
 * which turns each byte into the character with the same code.
 */
module Text {

  /**
   * QChar::isSpace: the control characters TAB, LF, VT, FF, CR and
   * NEL, and the Unicode separator characters (categories Zs, Zl, Zp).
   */
  predicate IsSpace(c: char) {
    var n := c as int;
    (9 <= n <= 13) || n == 0x20 || n == 0x85 || n == 0xA0 || n == 0x1680
    || (0x2000 <= n <= 0x200A) || n == 0x2028 || n == 0x2029 || n == 0x202F
    || n == 0x205F || n == 0x3000
  }

  predicate AllSpace(s: string) {
    forall i :: 0 <= i < |s| ==> IsSpace(s[i])
  }

  /** Length of the longest all-whitespace prefix of `s`. */
  function LeadingSpaces(s: string): (n: nat)
    ensures n <= |s| && AllSpace(s[..n])
    ensures n < |s| ==> !IsSpace(s[n])
  {
    if |s| > 0 && IsSpace(s[0]) then
      var m := LeadingSpaces(s[1..]);
      assert s[..m + 1] == [s[0]] + s[1..][..m];
      m + 1
    else 0
  }

  lemma AllSpaceAppend(a: string, b: string)
    requires AllSpace(a) && AllSpace(b)
    ensures AllSpace(a + b)
  {
    forall i | 0 <= i < |a + b|
      ensures IsSpace((a + b)[i])
    {
      if i < |a| {
        assert (a + b)[i] == a[i];
      } else {
        assert (a + b)[i] == b[i - |a|];
      }
    }
  }

  /** Length of the longest all-whitespace suffix of `s`. */
  function TrailingSpaces(s: string): (n: nat)
    ensures n <= |s| && AllSpace(s[|s| - n..])
    ensures n < |s| ==> !IsSpace(s[|s| - 1 - n])
  {
    if |s| > 0 && IsSpace(s[|s| - 1]) then
      var m := TrailingSpaces(s[..|s| - 1]);
      var tail := s[..|s| - 1][|s| - 1 - m..];
      assert s[|s| - (m + 1)..] == tail + [s[|s| - 1]];
      AllSpaceAppend(tail, [s[|s| - 1]]);
      assert m < |s| - 1 ==> s[|s| - 1 - (m + 1)] == s[..|s| - 1][|s| - 1 - 1 - m];
      m + 1
    else 0
  }

  /**
   * QString::trimmed: `s` without its leading and trailing whitespace.
   * The result sits in `s` right after the whitespace prefix, what is
   * cut off on either side is whitespace, and a non-empty result begins
   * and ends with a non-whitespace character; so the result is empty
   * exactly when `s` is all whitespace.
   */
  function Trimmed(s: string): (r: string)
    ensures var k := LeadingSpaces(s);
      k + |r| <= |s| && s[k..k + |r|] == r && AllSpace(s[..k]) && AllSpace(s[k + |r|..])
    ensures r != [] ==> !IsSpace(r[0]) && !IsSpace(r[|r| - 1])
    ensures r == [] <==> AllSpace(s)
  {
    var k := LeadingSpaces(s);
    var n := TrailingSpaces(s[k..]);
    TrimShape(s, k, n);
    s[k..][..|s[k..]| - n]
  }

  /**
   * Cutting a whitespace prefix of length `k` that stops at a non-space,
   * and a whitespace suffix of length `n` that does too, leaves a middle
   * that starts and ends with a non-space, and leaves nothing exactly
   * when `s` is all whitespace.
   */
  lemma TrimShape(s: string, k: nat, n: nat)
    requires k <= |s| && AllSpace(s[..k]) && (k < |s| ==> !IsSpace(s[k]))
    requires n <= |s| - k && AllSpace(s[k..][|s| - k - n..])
    requires n < |s| - k ==> !IsSpace(s[k..][|s| - k - 1 - n])
    ensures var r := s[k..][..|s| - k - n];
      k + |r| <= |s| && s[k..k + |r|] == r && AllSpace(s[..k]) && AllSpace(s[k + |r|..])
      && (r != [] ==> !IsSpace(r[0]) && !IsSpace(r[|r| - 1]))
      && (r == [] <==> AllSpace(s))
  {
    TrimMiddle(s, k, n);
    TrimEnds(s, k, n);
    TrimEmpty(s, k, n);
  }

  lemma TrimMiddle(s: string, k: nat, n: nat)
    requires n <= |s| - k && AllSpace(s[k..][|s| - k - n..])
    ensures var r := s[k..][..|s| - k - n];
      k + |r| <= |s| && s[k..k + |r|] == r && AllSpace(s[k + |r|..])
  {
    var t := s[k..];
    assert t[|t| - n..] == s[|s| - n..];
  }

  lemma TrimEnds(s: string, k: nat, n: nat)
    requires k <= |s| && (k < |s| ==> !IsSpace(s[k]))
    requires n <= |s| - k && (n < |s| - k ==> !IsSpace(s[k..][|s| - k - 1 - n]))
    ensures var r := s[k..][..|s| - k - n];
      r != [] ==> !IsSpace(r[0]) && !IsSpace(r[|r| - 1])
  {
    var t := s[k..];
    var r := t[..|t| - n];
    if r != [] {
      assert r[0] == t[0] && t[0] == s[k];
      assert r[|r| - 1] == t[|t| - 1 - n];
    }
  }

  lemma TrimEmpty(s: string, k: nat, n: nat)
    requires k <= |s| && AllSpace(s[..k]) && (k < |s| ==> !IsSpace(s[k]))
    requires n <= |s| - k && AllSpace(s[k..][|s| - k - n..])
    ensures k == |s| - n <==> AllSpace(s)
  {
    if k == |s| - n {
      assert s[k..][|s| - k - n..] == s[k..];
      assert s == s[..k] + s[k..];
      AllSpaceAppend(s[..k], s[k..]);
    }
  }

  /** A trimmed, non-empty string starts and ends with a non-space. */
  lemma TrimmedEnds(s: string)
    requires s != [] && Trimmed(s) == s
    ensures !IsSpace(s[0]) && !IsSpace(s[|s| - 1])
  {
  }

  /** A string with no whitespace at either end is its own trimmed form. */
  lemma TrimmedNoOp(s: string)
    requires s != [] ==> !IsSpace(s[0]) && !IsSpace(s[|s| - 1])
    ensures Trimmed(s) == s
  {
    if s != [] {
      assert LeadingSpaces(s) == 0;
    }
  }

  /** Trimming twice is trimming once. */
  lemma TrimmedIdempotent(s: string)
    ensures Trimmed(Trimmed(s)) == Trimmed(s)
  {
    TrimmedNoOp(Trimmed(s));
  }

  /** A non-whitespace last character survives trimming and stays last. */
  lemma TrimmedKeepsLast(s: string)
    requires s != [] && !IsSpace(s[|s| - 1])
    ensures Trimmed(s) != [] && Trimmed(s)[|Trimmed(s)| - 1] == s[|s| - 1]
  {
    assert !AllSpace(s);
  }

  /** A byte: the unit of QByteArray and of the serial stream. */
  newtype byte = x: int | 0 <= x < 256

  /** QString::fromLatin1: byte `b` becomes the character with code `b`. */
  function FromLatin1(bytes: seq<byte>): (s: string)
    ensures |s| == |bytes|
    ensures forall i :: 0 <= i < |bytes| ==> s[i] as int == bytes[i] as int
  {
    seq(|bytes|, i requires 0 <= i < |bytes| => (bytes[i] as int) as char)
  }

  /** Distinct byte strings decode to distinct strings: one byte is one character. */
  lemma FromLatin1Injective(a: seq<byte>, b: seq<byte>)
    requires FromLatin1(a) == FromLatin1(b)
    ensures a == b
  {
    assert |a| == |b|;
    forall i | 0 <= i < |a|
      ensures a[i] == b[i]
    {
      assert FromLatin1(a)[i] == FromLatin1(b)[i];
    }
  }
}
