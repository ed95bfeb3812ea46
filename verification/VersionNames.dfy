/** Manifest file names: a version as twenty decimal digits and a suffix, and back. */
module VersionNames {
  import opened Sorting
  import opened Strings
  import opened Wrappers

  const U64_LIMIT: nat := 0x1_0000_0000_0000_0000
  const WIDTH: nat := 20
  const SUFFIX := ".json"

  function Pow10(n: nat): nat {
    if n == 0 then 1 else 10 * Pow10(n - 1)
  }

  /** The last `width` decimal digits of `v`. */
  function Pad(v: nat, width: nat): (s: string)
    ensures |s| == width
  {
    if width == 0 then "" else Pad(v / 10, width - 1) + [Digit(v % 10)]
  }

  function VersionFile(version: nat): string {
    Pad(version, WIDTH) + SUFFIX
  }

  /** A `u64` in decimal: an optional `+`, at least one digit, no overflow. */
  function ParseU64(s: string): Option<nat> {
    var digits := if s != "" && s[0] == '+' then s[1..] else s;
    if digits == "" then None
    else match ParseDigits(digits)
      case None => None
      case Some(n) => if n < U64_LIMIT then Some(n) else None
  }

  function ParseVersion(name: string): Option<nat> {
    if |name| >= |SUFFIX| && name[|name| - |SUFFIX|..] == SUFFIX then ParseU64(name[..|name| - |SUFFIX|])
    else None
  }

  lemma {:induction false} ParsePad(v: nat, width: nat)
    requires v < Pow10(width)
    ensures ParseDigits(Pad(v, width)) == Some(v)
  {
    if width > 0 {
      ParsePad(v / 10, width - 1);
      var s := Pad(v, width);
      assert s[..|s| - 1] == Pad(v / 10, width - 1);
    }
  }

  lemma TwentyDigitsAreEnough()
    ensures U64_LIMIT < Pow10(WIDTH)
  {
    assert Pow10(5) == 100000;
    assert Pow10(10) == 10000000000;
    assert Pow10(15) == 1000000000000000;
    assert Pow10(20) == 100000000000000000000;
  }

  lemma {:induction false} PadIsDigits(v: nat, width: nat)
    ensures forall i :: 0 <= i < width ==> '0' <= Pad(v, width)[i] <= '9'
  {
    if width > 0 {
      PadIsDigits(v / 10, width - 1);
    }
  }

  /** Every version can be read back from its file name, so no two versions share one. */
  lemma NameRoundTrip(v: nat)
    requires v < U64_LIMIT
    ensures ParseVersion(VersionFile(v)) == Some(v)
  {
    TwentyDigitsAreEnough();
    ParsePad(v, WIDTH);
    PadIsDigits(v, WIDTH);
    var name := VersionFile(v);
    assert name[..|name| - |SUFFIX|] == Pad(v, WIDTH);
    assert name[|name| - |SUFFIX|..] == SUFFIX;
  }

  /** Twenty digits and `.json`. */
  lemma NameShape(v: nat)
    ensures |VersionFile(v)| == 25 && VersionFile(v)[20..] == ".json"
    ensures forall i :: 0 <= i < 20 ==> '0' <= VersionFile(v)[i] <= '9'
  {
    PadIsDigits(v, WIDTH);
  }

  /** Which names are versions: digits, with a plus or without, worth less than 2^64, and `.json`. */
  lemma VersionsExactly(name: string, v: nat)
    ensures ParseVersion(name) == Some(v) <==>
            && v <= 0xFFFF_FFFF_FFFF_FFFF
            && exists digits: string ::
                 && digits != "" && ParseDigits(digits) == Some(v)
                 && (name == digits + ".json" || name == "+" + digits + ".json")
  {
    if ParseVersion(name) == Some(v) {
      var stem := name[..|name| - 5];
      var digits := if stem[0] == '+' then stem[1..] else stem;
      assert name == stem + ".json" && (stem == digits || stem == "+" + digits);
    }
    if digits: string :|
        && digits != "" && ParseDigits(digits) == Some(v)
        && (name == digits + ".json" || name == "+" + digits + ".json")
    {
      var stem := name[..|name| - 5];
      assert name[|name| - 5..] == ".json";
      if name == digits + ".json" {
        assert stem == digits;
        DigitsHaveNoSign(digits);
      } else {
        assert stem == "+" + digits && stem[1..] == digits;
      }
    }
  }

  lemma {:induction false} DigitsHaveNoSign(s: string)
    requires s != "" && ParseDigits(s).Some?
    ensures s[0] != '+'
  {
    if |s| > 1 {
      DigitsHaveNoSign(s[..|s| - 1]);
    }
  }

  lemma {:induction false} LexSnoc(a: string, b: string, x: char, y: char)
    requires |a| == |b|
    ensures LexLess(a + [x], b + [y]) <==> LexLess(a, b) || (a == b && x < y)
  {
    if a == "" {
      assert a + [x] == [x] && b + [y] == [y];
    } else {
      assert (a + [x])[1..] == a[1..] + [x] && (b + [y])[1..] == b[1..] + [y];
      LexSnoc(a[1..], b[1..], x, y);
      assert a == [a[0]] + a[1..] && b == [b[0]] + b[1..];
    }
  }

  lemma {:induction false} LexSameTail(a: string, b: string, tail: string)
    requires |a| == |b|
    ensures LexLess(a + tail, b + tail) <==> LexLess(a, b)
    decreases |tail|
  {
    if tail == "" {
      assert a + tail == a && b + tail == b;
    } else {
      var c := tail[0];
      LexSnoc(a, b, c, c);
      LexSameTail(a + [c], b + [c], tail[1..]);
      assert a + tail == (a + [c]) + tail[1..] && b + tail == (b + [c]) + tail[1..];
    }
  }

  lemma {:induction false} PadOrder(v: nat, w: nat, width: nat)
    requires v < Pow10(width) && w < Pow10(width)
    ensures LexLess(Pad(v, width), Pad(w, width)) <==> v < w
    ensures Pad(v, width) == Pad(w, width) <==> v == w
  {
    if width > 0 {
      PadOrder(v / 10, w / 10, width - 1);
      LexSnoc(Pad(v / 10, width - 1), Pad(w / 10, width - 1), Digit(v % 10), Digit(w % 10));
      ParsePad(v, width);
      ParsePad(w, width);
    }
  }

  /** A listing sorted by name is sorted by version. */
  lemma NameOrderIsVersionOrder(v: nat, w: nat)
    requires v < U64_LIMIT && w < U64_LIMIT
    ensures LexLess(VersionFile(v), VersionFile(w)) <==> v < w
  {
    TwentyDigitsAreEnough();
    PadOrder(v, w, WIDTH);
    LexSameTail(Pad(v, WIDTH), Pad(w, WIDTH), SUFFIX);
  }
}
