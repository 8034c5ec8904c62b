/**
 * Output names of movie frames in mandel.c: the child for frame f writes
 * to `snprintf(out, sizeof(out), "%s%02d.jpg", prefix, f)` with a
 * 128-byte buffer `out`.
 *
 * FrameNameAsWritten keeps snprintf's truncation to 127 characters;
 * FullFrameName is the untruncated name, which the scheduler uses.
 */
module FrameNames {
  import opened Wrappers

  /** Size of the buffer `out`, terminating NUL included. */
  const NameBufferSize: nat := 128

  const Extension: string := ".jpg"

  function DigitChar(d: nat): char
    requires d < 10
  {
    ('0' as int + d) as char
  }

  predicate IsDigit(c: char) {
    '0' <= c <= '9'
  }

  function DigitValue(c: char): int {
    c as int - '0' as int
  }

  /** The decimal numeral of n, without leading zeros, as "%d" prints it. */
  function Decimal(n: nat): (s: string)
    ensures 1 <= |s|
    ensures n < 10 <==> |s| == 1
    ensures forall k :: 0 <= k < |s| ==> IsDigit(s[k])
    ensures s[0] == '0' <==> n == 0
  {
    if n < 10 then [DigitChar(n)] else Decimal(n / 10) + [DigitChar(n % 10)]
  }

  /** The value of a numeral, read most significant digit first. */
  function ParseDecimal(s: string): int {
    if s == [] then 0 else ParseDecimal(s[..|s| - 1]) * 10 + DigitValue(s[|s| - 1])
  }

  lemma {:induction false} DecimalRoundTrip(n: nat)
    ensures ParseDecimal(Decimal(n)) == n
  {
    if n >= 10 {
      var s := Decimal(n / 10) + [DigitChar(n % 10)];
      assert s[..|s| - 1] == Decimal(n / 10);
      DecimalRoundTrip(n / 10);
    }
  }

  /** "%02d": the decimal numeral, zero-padded to at least two digits. */
  function Pad2(n: nat): (s: string)
    ensures 2 <= |s|
    ensures n < 100 ==> |s| == 2
    ensures forall k :: 0 <= k < |s| ==> IsDigit(s[k])
  {
    if n < 10 then "0" + Decimal(n) else Decimal(n)
  }

  /** The padded numeral reads back as the number. */
  lemma Pad2RoundTrip(n: nat)
    ensures ParseDecimal(Pad2(n)) == n
  {
    DecimalRoundTrip(n);
    if n < 10 {
      var s := "0" + Decimal(n);
      assert s[..1] == "0";
      assert ParseDecimal("0") == 0 by {
        assert "0"[..0] == [];
      }
    }
  }

  /** Below 100 the padded numeral is the tens digit then the units digit. */
  lemma Pad2Digits(n: nat)
    requires n < 100
    ensures Pad2(n) == [DigitChar(n / 10), DigitChar(n % 10)]
  {
    if 10 <= n {
      assert Decimal(n / 10) == [DigitChar(n / 10)];
    }
  }

  /** The name "%s%02d.jpg" without any length limit. */
  function FullFrameName(prefix: string, frame: nat): (name: string)
    ensures prefix <= name && |name| == |prefix| + |Pad2(frame)| + |Extension|
    ensures name[|name| - |Extension|..] == Extension
    ensures forall k :: |prefix| <= k < |name| - |Extension| ==> IsDigit(name[k])
  {
    prefix + Pad2(frame) + Extension
  }

  /** Recovers the frame number from a name built on prefix, if it has the
      form prefix, digits, ".jpg". */
  function FrameIndexOf(prefix: string, name: string): Option<int> {
    if |name| >= |prefix| + |Extension| && name[..|prefix|] == prefix
       && name[|name| - |Extension|..] == Extension
    then Some(ParseDecimal(name[|prefix|..|name| - |Extension|]))
    else None
  }

  /** The frame number round-trips through its name ... */
  lemma FrameIndexRoundTrip(prefix: string, frame: nat)
    ensures FrameIndexOf(prefix, FullFrameName(prefix, frame)) == Some(frame)
  {
    var name := FullFrameName(prefix, frame);
    assert name[..|prefix|] == prefix;
    assert name[|name| - |Extension|..] == Extension;
    assert name[|prefix|..|name| - |Extension|] == Pad2(frame);
    Pad2RoundTrip(frame);
  }

  /** ... so distinct frames never share an untruncated name. */
  lemma FullFrameNamesDistinct(prefix: string, f: nat, g: nat)
    requires f != g
    ensures FullFrameName(prefix, f) != FullFrameName(prefix, g)
  {
    FrameIndexRoundTrip(prefix, f);
    FrameIndexRoundTrip(prefix, g);
  }

  /** The first n characters of s (all of s when it is shorter). */
  function Truncate(s: string, n: nat): (r: string)
    ensures |r| <= n && r <= s
    ensures |s| <= n ==> r == s
  {
    if |s| <= n then s else s[..n]
  }

  /** What snprintf leaves in `out`: the name cut to 127 characters. */
  function FrameNameAsWritten(prefix: string, frame: nat): (name: string)
    ensures |name| < NameBufferSize
    ensures name <= FullFrameName(prefix, frame)
    ensures |FullFrameName(prefix, frame)| < NameBufferSize ==> name == FullFrameName(prefix, frame)
  {
    Truncate(FullFrameName(prefix, frame), NameBufferSize - 1)
  }

  /**
   * For the frame numbers 0..99 two different frames get the same
   * truncated name exactly when the prefix leaves no room for the digits
   * (127 characters or more), or room for the tens digit only (126
   * characters) and the frames share it.
   */
  lemma AsWrittenNamesCollideIff(prefix: string, f: nat, g: nat)
    requires f < 100 && g < 100 && f != g
    ensures FrameNameAsWritten(prefix, f) == FrameNameAsWritten(prefix, g) <==>
      |prefix| >= NameBufferSize - 1 || (|prefix| == NameBufferSize - 2 && f / 10 == g / 10)
  {
    var p := |prefix|;
    var nf, ng := FrameNameAsWritten(prefix, f), FrameNameAsWritten(prefix, g);
    var ff, fg := FullFrameName(prefix, f), FullFrameName(prefix, g);
    Pad2Digits(f);
    Pad2Digits(g);
    assert ff[p] == DigitChar(f / 10) && fg[p] == DigitChar(g / 10);
    assert ff[p + 1] == DigitChar(f % 10) && fg[p + 1] == DigitChar(g % 10);
    if p >= NameBufferSize - 1 {
      assert nf == prefix[..NameBufferSize - 1] == ng;
    } else if p == NameBufferSize - 2 {
      assert nf == prefix + [DigitChar(f / 10)];
      assert ng == prefix + [DigitChar(g / 10)];
      if nf == ng {
        assert nf[p] == ng[p];
      }
    } else {
      assert nf[p] == ff[p] && nf[p + 1] == ff[p + 1];
      assert ng[p] == fg[p] && ng[p + 1] == fg[p + 1];
      if f / 10 == g / 10 {
        assert f % 10 != g % 10;
        assert nf[p + 1] != ng[p + 1];
      } else {
        assert nf[p] != ng[p];
      }
    }
  }
}
