/** The on-disk naming convention shared by the extractor and the selector:
    frame number `i` lives in a file called `frame_{i:06d}.jpg`. */
module Naming {
  import opened Wrappers
  import opened Order

  /** Width of the zero-padded index in a frame file name. */
  const IndexWidth: nat := 6

  function Pow10(w: nat): (p: nat)
    ensures p >= 1
  {
    if w == 0 then 1 else 10 * Pow10(w - 1)
  }

  predicate IsDigit(c: char)
  {
    '0' <= c <= '9'
  }

  predicate AllDigits(s: string)
  {
    forall i :: 0 <= i < |s| ==> IsDigit(s[i])
  }

  function DigitChar(d: nat): (c: char)
    requires d < 10
    ensures IsDigit(c)
  {
    ('0' as int + d) as char
  }

  function DigitValue(c: char): (d: nat)
    requires IsDigit(c)
    ensures d < 10 && DigitChar(d) == c
  {
    c as int - '0' as int
  }

  /** `str(n)`: the decimal digits of `n`, most significant first. */
  function Decimal(n: nat): (s: string)
    ensures 1 <= |s| && AllDigits(s)
  {
    if n < 10 then [DigitChar(n)] else Decimal(n / 10) + [DigitChar(n % 10)]
  }

  function Zeros(w: nat): (s: string)
    ensures |s| == w && forall i :: 0 <= i < w ==> s[i] == '0'
  {
    if w == 0 then [] else Zeros(w - 1) + ['0']
  }

  /** `f"{n:0{width}d}"`: the digits of `n`, padded on the left with zeros to
      `width` characters; a number with more digits is not truncated. */
  function ZeroPad(n: nat, width: nat): (s: string)
    ensures AllDigits(s)
  {
    var d := Decimal(n);
    if |d| < width then Zeros(width - |d|) + d else d
  }

  /** `f"frame_{index:06d}.jpg"`. */
  function FrameName(index: nat): string
  {
    "frame_" + ZeroPad(index, IndexWidth) + ".jpg"
  }

  /** The number a string of decimal digits denotes (leading zeros ignored). */
  function Value(s: string): nat
    requires AllDigits(s)
  {
    if s == [] then 0 else Value(s[..|s| - 1]) * 10 + DigitValue(s[|s| - 1])
  }

  /** Reads the frame number back out of a file name of the frame shape. */
  function ParseFrameName(name: string): Option<nat>
  {
    if |name| > 10 && name[..6] == "frame_" && name[|name| - 4..] == ".jpg"
       && AllDigits(name[6..|name| - 4])
    then Some(Value(name[6..|name| - 4]))
    else None
  }

  lemma {:induction false} ValueOfDecimal(n: nat)
    ensures Value(Decimal(n)) == n
  {
    var d := Decimal(n);
    if n >= 10 {
      ValueOfDecimal(n / 10);
      assert d[..|d| - 1] == Decimal(n / 10);
    }
  }

  lemma {:induction false} ValueIgnoresLeadingZeros(w: nat, s: string)
    requires AllDigits(s)
    ensures AllDigits(Zeros(w) + s) && Value(Zeros(w) + s) == Value(s)
    decreases |s| + w
  {
    var z := Zeros(w) + s;
    if s == [] {
      assert z == Zeros(w);
      if w > 0 {
        assert z[..|z| - 1] == Zeros(w - 1) + [];
        ValueIgnoresLeadingZeros(w - 1, []);
      }
    } else {
      assert z[..|z| - 1] == Zeros(w) + s[..|s| - 1];
      ValueIgnoresLeadingZeros(w, s[..|s| - 1]);
    }
  }

  /** Zero padding loses nothing: the padded digits still denote `n`. */
  lemma ZeroPadRoundTrip(n: nat, width: nat)
    ensures Value(ZeroPad(n, width)) == n
  {
    var d := Decimal(n);
    var k: nat := if |d| < width then width - |d| else 0;
    assert ZeroPad(n, width) == Zeros(k) + d by {
      assert Zeros(0) + d == d;
    }
    ValueOfDecimal(n);
    ValueIgnoresLeadingZeros(k, d);
  }

  /** Parsing a generated frame name gives back its index. */
  lemma FrameNameRoundTrip(index: nat)
    ensures ParseFrameName(FrameName(index)) == Some(index)
  {
    var p := ZeroPad(index, IndexWidth);
    var name := FrameName(index);
    assert |p| >= 1;
    assert name[..6] == "frame_";
    assert name[|name| - 4..] == ".jpg";
    assert name[6..|name| - 4] == p;
    ZeroPadRoundTrip(index, IndexWidth);
  }

  /** Distinct frame numbers give distinct file names, so no two saved frames
      overwrite each other. */
  lemma FrameNameInjective(a: nat, b: nat)
    requires FrameName(a) == FrameName(b)
    ensures a == b
  {
    FrameNameRoundTrip(a);
    FrameNameRoundTrip(b);
  }

  lemma FrameNamesDistinct()
    ensures forall a: nat, b: nat :: FrameName(a) == FrameName(b) ==> a == b
  {
    forall a: nat, b: nat | FrameName(a) == FrameName(b)
      ensures a == b
    {
      FrameNameInjective(a, b);
    }
  }

  /** The last `w` decimal digits of `n`, most significant first. */
  function Fixed(n: nat, w: nat): (s: string)
    ensures |s| == w
  {
    if w == 0 then [] else Fixed(n / 10, w - 1) + [DigitChar(n % 10)]
  }

  lemma {:induction false} FixedOfZero(w: nat)
    ensures Fixed(0, w) == Zeros(w)
  {
    if w > 0 {
      FixedOfZero(w - 1);
    }
  }

  lemma {:induction false} DecimalLength(n: nat, w: nat)
    requires 1 <= w && n < Pow10(w)
    ensures |Decimal(n)| <= w
  {
    if n >= 10 {
      assert Pow10(1) == 10;
      assert w >= 2;
      assert n / 10 < Pow10(w - 1);
      DecimalLength(n / 10, w - 1);
    }
  }

  lemma {:induction false} FixedIsPadded(n: nat, w: nat)
    requires 1 <= w && n < Pow10(w)
    ensures Fixed(n, w) == ZeroPad(n, w)
  {
    DecimalLength(n, w);
    if n < 10 {
      FixedOfZero(w - 1);
      assert Fixed(n, w) == Zeros(w - 1) + [DigitChar(n)];
    } else {
      assert n / 10 < Pow10(w - 1);
      FixedIsPadded(n / 10, w - 1);
      var d := Decimal(n / 10);
      DecimalLength(n / 10, w - 1);
      assert Fixed(n, w) == (Zeros(w - 1 - |d|) + d) + [DigitChar(n % 10)];
      assert Decimal(n) == d + [DigitChar(n % 10)];
    }
  }

  lemma {:induction false} FixedOrder(a: nat, b: nat, w: nat)
    requires a < b < Pow10(w)
    ensures Below(Fixed(a, w), Fixed(b, w))
  {
    if w == 0 {
      assert false;
    } else {
      var ca, cb := [DigitChar(a % 10)], [DigitChar(b % 10)];
      assert a / 10 <= b / 10;
      assert b / 10 < Pow10(w - 1);
      if a / 10 < b / 10 {
        FixedOrder(a / 10, b / 10, w - 1);
        BelowExtend(Fixed(a / 10, w - 1), Fixed(b / 10, w - 1), ca, cb);
      } else {
        assert a % 10 < b % 10;
        assert Below(ca, cb);
        BelowAfterCommonPrefix(Fixed(a / 10, w - 1), ca, cb);
      }
    }
  }

  /** Below a million, frame file names sort (as Python sorts strings) in the
      order of their frame numbers. */
  lemma FrameNameOrder(a: nat, b: nat)
    requires a < b < Pow10(IndexWidth)
    ensures Below(FrameName(a), FrameName(b))
  {
    FixedIsPadded(a, IndexWidth);
    FixedIsPadded(b, IndexWidth);
    FixedOrder(a, b, IndexWidth);
    var pa, pb := ZeroPad(a, IndexWidth), ZeroPad(b, IndexWidth);
    BelowExtend(pa, pb, ".jpg", ".jpg");
    BelowAfterCommonPrefix("frame_", pa + ".jpg", pb + ".jpg");
    assert FrameName(a) == "frame_" + (pa + ".jpg");
    assert FrameName(b) == "frame_" + (pb + ".jpg");
  }

  lemma DecimalOfMillion()
    ensures Decimal(1000000) == "1000000"
  {
    assert Decimal(1) == "1";
    assert Decimal(10) == "10";
    assert Decimal(100) == "100";
    assert Decimal(1000) == "1000";
    assert Decimal(10000) == "10000";
    assert Decimal(100000) == "100000";
  }

  lemma DecimalOf100001()
    ensures Decimal(100001) == "100001"
  {
    assert Decimal(1) == "1";
    assert Decimal(10) == "10";
    assert Decimal(100) == "100";
    assert Decimal(1000) == "1000";
    assert Decimal(10001) == "10001";
  }

  /** From the millionth frame on, names grow a seventh digit and string order
      no longer follows frame order: `frame_1000000.jpg` sorts before
      `frame_100001.jpg`. */
  lemma SevenDigitNamesSortEarly()
    ensures Below(FrameName(1000000), FrameName(100001))
  {
    DecimalOfMillion();
    DecimalOf100001();
    var a, b := "1000000" + ".jpg", "100001" + ".jpg";
    assert a == "10000" + "00.jpg";
    assert b == "10000" + "1.jpg";
    assert Below("00.jpg", "1.jpg");
    BelowAfterCommonPrefix("10000", "00.jpg", "1.jpg");
    BelowAfterCommonPrefix("frame_", a, b);
    assert FrameName(1000000) == "frame_" + a;
    assert FrameName(100001) == "frame_" + b;
  }

  /** The names `frame_000000.jpg` up to, not including, `FrameName(count)`. */
  function NameRange(count: nat): set<string>
  {
    set j | 0 <= j < count :: FrameName(j)
  }

  /** The same names as a sequence, in frame-number order. */
  function FrameNames(count: nat): (r: seq<string>)
    ensures |r| == count
  {
    if count == 0 then [] else FrameNames(count - 1) + [FrameName(count - 1)]
  }

  predicate EndsWith(name: string, suffix: string)
  {
    |suffix| <= |name| && name[|name| - |suffix|..] == suffix
  }

  lemma FrameNameIsJpg(index: nat)
    ensures EndsWith(FrameName(index), ".jpg")
  {
    var name := FrameName(index);
    assert name[|name| - 4..] == ".jpg";
  }

  /** Below a million frames, the frame names in frame-number order are the
      names sorted as strings. */
  lemma {:induction false} FrameNamesSorted(count: nat)
    requires count <= Pow10(IndexWidth)
    ensures StrictlySorted(FrameNames(count))
    ensures forall x :: x in FrameNames(count) <==> x in NameRange(count)
  {
    if count > 0 {
      var front := FrameNames(count - 1);
      FrameNamesSorted(count - 1);
      forall i | 0 <= i < count - 1
        ensures Below(front[i], FrameName(count - 1))
      {
        assert front[i] in NameRange(count - 1);
        var a :| 0 <= a < count - 1 && front[i] == FrameName(a);
        FrameNameOrder(a, count - 1);
      }
      assert NameRange(count) == NameRange(count - 1) + {FrameName(count - 1)};
    }
  }
}
