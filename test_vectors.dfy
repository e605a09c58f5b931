/** The test-vector helpers of lib/mixminion/testSupport.py: the bracketed
    hexadecimal codecs for byte strings (hexStr/unHexStr) and for numbers
    (hexNum/unHexNum), and the counter-mode byte generator CyclicRNG. */
module TestVectors {
  import opened Common

  // ---------------------------------------------------------------------
  // Hexadecimal digits

  /** The upper-case hexadecimal digit for 0 <= d < 16 ("%X"). */
  function HexDigit(d: nat): (c: char)
    requires d < 16
    ensures '0' <= c <= '9' || 'A' <= c <= 'F'
  {
    if d < 10 then ('0' as int + d) as char else ('A' as int + d - 10) as char
  }

  /** The value of a hexadecimal digit in either case, as int(_, 16) reads it. */
  function DigitValue(c: char): (v: Option<nat>)
    ensures v.Some? ==> v.value < 16
  {
    if '0' <= c <= '9' then Some(c as nat - '0' as nat)
    else if 'A' <= c <= 'F' then Some(c as nat - 'A' as nat + 10)
    else if 'a' <= c <= 'f' then Some(c as nat - 'a' as nat + 10)
    else None
  }

  /** Reading a digit back gives its value. */
  lemma DigitValueOfHexDigit(d: nat)
    requires d < 16
    ensures DigitValue(HexDigit(d)) == Some(d)
  {
  }

  /** "%02X" % b */
  function HexPair(b: byte): (p: string)
    ensures |p| == 2
  {
    [HexDigit(b as nat / 16), HexDigit(b as nat % 16)]
  }

  // ---------------------------------------------------------------------
  // The bracketed, space-separated list of two-character groups

  /** " ".join(ps) */
  function JoinPairs(ps: seq<string>): string
  {
    if |ps| == 0 then ""
    else if |ps| == 1 then ps[0]
    else ps[0] + " " + JoinPairs(ps[1..])
  }

  /** "[%s]" % " ".join(ps) */
  function Bracketed(ps: seq<string>): (s: string)
    ensures |s| >= 2 && s[0] == '[' && s[|s| - 1] == ']'
  {
    "[" + JoinPairs(ps) + "]"
  }

  predicate AllPairs(ps: seq<string>)
  {
    forall k :: 0 <= k < |ps| ==> |ps[k]| == 2
  }

  /** The loop shared by unHexStr and unHexNum, from index i on: take the
      two characters s[i:i+2] and require s[i+2] to be ' ' or ']', for
      i = 1, 4, 7, ... below len(s)-1.  None when an index runs off the end
      or a separator is wrong (the asserts of the source). */
  function PairsFrom(s: string, i: nat): (r: Option<seq<string>>)
    requires i >= 1
    decreases |s| - i
    ensures r.Some? ==> AllPairs(r.value)
  {
    if i + 1 >= |s| then Some([])
    else if i + 2 >= |s| then None
    else if s[i + 2] != ' ' && s[i + 2] != ']' then None
    else
      match PairsFrom(s, i + 3)
      case None => None
      case Some(rest) => Some([s[i..i + 2]] + rest)
  }

  /** The splitting loop reads back exactly the groups that Bracketed wrote,
      whatever they contain: after any prefix x, the text
      JoinPairs(ps) + "]" splits into ps. */
  lemma {:induction false} PairsFromJoin(x: string, ps: seq<string>)
    requires |x| >= 1
    requires AllPairs(ps)
    ensures PairsFrom(x + JoinPairs(ps) + "]", |x|) == Some(ps)
    decreases |ps|
  {
    var s := x + JoinPairs(ps) + "]";
    if |ps| == 0 {
      assert |s| == |x| + 1;
    } else if |ps| == 1 {
      assert s == x + ps[0] + "]";
      assert s[|x| + 2] == ']';
      assert s[|x|..|x| + 2] == ps[0];
      assert PairsFrom(s, |x| + 3) == Some([]);
      assert [ps[0]] + [] == ps;
    } else {
      var x' := x + ps[0] + " ";
      assert s == x' + JoinPairs(ps[1..]) + "]";
      assert s[|x| + 2] == ' ';
      assert s[|x|..|x| + 2] == ps[0];
      PairsFromJoin(x', ps[1..]);
      assert [ps[0]] + ps[1..] == ps;
    }
  }

  /** The bracket checks and the loop: the groups of a bracketed list. */
  function SplitBracketed(s: string): (r: Option<seq<string>>)
    ensures r.Some? ==> |s| >= 2 && s[0] == '[' && s[|s| - 1] == ']' && AllPairs(r.value)
  {
    if |s| == 0 || s[0] != '[' || s[|s| - 1] != ']' || |s| < 2 then None
    else PairsFrom(s, 1)
  }

  lemma SplitBracketedRoundTrip(ps: seq<string>)
    requires AllPairs(ps)
    ensures SplitBracketed(Bracketed(ps)) == Some(ps)
  {
    PairsFromJoin("[", ps);
  }

  // ---------------------------------------------------------------------
  // hexStr / unHexStr

  function HexPairs(s: seq<byte>): (ps: seq<string>)
    ensures |ps| == |s| && AllPairs(ps)
  {
    if s == [] then [] else [HexPair(s[0])] + HexPairs(s[1..])
  }

  lemma {:induction false} HexPairsAt(s: seq<byte>, k: nat)
    requires k < |s|
    ensures HexPairs(s)[k] == HexPair(s[k])
  {
    if k > 0 {
      HexPairsAt(s[1..], k - 1);
    }
  }

  /** hexStr(s): "[" + two upper-case hex digits per byte, separated by
      single spaces, + "]". */
  function HexStr(s: seq<byte>): (r: string)
    ensures |r| >= 2 && r[0] == '[' && r[|r| - 1] == ']'
  {
    Bracketed(HexPairs(s))
  }

  /** The length of " ".join(ps) for two-character groups. */
  lemma {:induction false} JoinLength(ps: seq<string>)
    requires AllPairs(ps)
    ensures |JoinPairs(ps)| == if ps == [] then 0 else 3 * |ps| - 1
  {
    if |ps| >= 2 {
      JoinLength(ps[1..]);
    }
  }

  /** Group k of " ".join(ps) starts at 3k and, unless it is the last,
      is followed by a space. */
  lemma {:induction false} JoinAt(ps: seq<string>, k: nat)
    requires AllPairs(ps) && k < |ps|
    ensures |JoinPairs(ps)| == 3 * |ps| - 1
    ensures JoinPairs(ps)[3 * k .. 3 * k + 2] == ps[k]
    ensures k < |ps| - 1 ==> JoinPairs(ps)[3 * k + 2] == ' '
  {
    JoinLength(ps);
    if |ps| >= 2 {
      var rest := JoinPairs(ps[1..]);
      assert JoinPairs(ps) == ps[0] + " " + rest;
      if k > 0 {
        JoinAt(ps[1..], k - 1);
        assert JoinPairs(ps)[3 * k .. 3 * k + 2] == rest[3 * (k - 1) .. 3 * (k - 1) + 2];
      }
    }
  }

  /** The characters of hexStr(s), group by group: the pair for byte k at
      1 + 3k, followed by a space or, after the last, the closing bracket. */
  lemma HexStrAt(s: seq<byte>, k: nat)
    requires k < |s|
    ensures |HexStr(s)| == 3 * |s| + 1
    ensures HexStr(s)[1 + 3 * k .. 3 + 3 * k] == HexPair(s[k])
    ensures HexStr(s)[3 + 3 * k] == (if k < |s| - 1 then ' ' else ']')
  {
    var ps := HexPairs(s);
    JoinAt(ps, k);
    HexPairsAt(s, k);
    BracketedAt(JoinPairs(ps), 3 * k, 3 * k + 2);
  }

  lemma BracketedAt(j: string, lo: nat, hi: nat)
    requires lo <= hi <= |j|
    ensures ("[" + j + "]")[lo + 1 .. hi + 1] == j[lo..hi]
    ensures hi < |j| ==> ("[" + j + "]")[hi + 1] == j[hi]
    ensures ("[" + j + "]")[|j| + 1] == ']'
  {
    var b := "[" + j + "]";
    assert forall i | lo <= i < hi :: b[i + 1] == j[i];
  }

  /** int(p, 16) for a two-character group, then chr. */
  function ParseByte(p: string): (r: Option<byte>)
    requires |p| == 2
  {
    match (DigitValue(p[0]), DigitValue(p[1]))
    case (Some(hi), Some(lo)) => Some((16 * hi + lo) as byte)
    case _ => None
  }

  function ParseBytes(ps: seq<string>): (r: Option<seq<byte>>)
    requires AllPairs(ps)
    ensures r.Some? ==> |r.value| == |ps|
  {
    if ps == [] then Some([])
    else
      match (ParseByte(ps[0]), ParseBytes(ps[1..]))
      case (Some(b), Some(rest)) => Some([b] + rest)
      case _ => None
  }

  /** unHexStr(s): None where the source's asserts, indexing or int()
      would raise. */
  function UnHexStr(s: string): (r: Option<seq<byte>>)
    // only a bracketed text decodes
    ensures r.Some? ==> |s| >= 2 && s[0] == '[' && s[|s| - 1] == ']'
  {
    match SplitBracketed(s)
    case None => None
    case Some(ps) => ParseBytes(ps)
  }

  lemma ParseHexPair(b: byte)
    ensures ParseByte(HexPair(b)) == Some(b)
  {
    var hi, lo := b as nat / 16, b as nat % 16;
    DigitValueOfHexDigit(hi);
    DigitValueOfHexDigit(lo);
    assert 16 * hi + lo == b as nat;
  }

  lemma {:induction false} ParseBytesOfHexPairs(s: seq<byte>)
    ensures ParseBytes(HexPairs(s)) == Some(s)
  {
    if s != [] {
      assert HexPairs(s)[1..] == HexPairs(s[1..]);
      ParseHexPair(s[0]);
      ParseBytesOfHexPairs(s[1..]);
      assert [s[0]] + s[1..] == s;
    }
  }

  /** unHexStr(hexStr(s)) == s for every byte string. */
  lemma UnHexStrRoundTrip(s: seq<byte>)
    ensures UnHexStr(HexStr(s)) == Some(s)
  {
    SplitBracketedRoundTrip(HexPairs(s));
    ParseBytesOfHexPairs(s);
  }

  lemma JoinCons(p: string, ps: seq<string>)
    requires |ps| >= 1
    ensures JoinPairs([p] + ps) == p + " " + JoinPairs(ps)
  {
    assert ([p] + ps)[1..] == ps;
  }

  // ---------------------------------------------------------------------
  // hexNum / unHexNum

  /** "%X" % n: upper-case hexadecimal without leading zeros ("0" for 0). */
  function HexDigits(n: nat): (d: string)
    ensures |d| >= 1
    decreases n
  {
    if n < 16 then [HexDigit(n)] else HexDigits(n / 16) + [HexDigit(n % 16)]
  }

  /** The value of a string of hexadecimal digits, read left to right. */
  function HexValue(d: string): (v: Option<nat>)
  {
    if d == [] then Some(0)
    else
      match (HexValue(d[..|d| - 1]), DigitValue(d[|d| - 1]))
      case (Some(hi), Some(lo)) => Some(16 * hi + lo)
      case _ => None
  }

  /** long(d, 16): the empty string is not a number. */
  function ParseHexNumber(d: string): (v: Option<nat>)
  {
    if d == [] then None else HexValue(d)
  }

  lemma {:induction false} HexValueOfDigits(n: nat)
    ensures HexValue(HexDigits(n)) == Some(n)
    decreases n
  {
    var d := HexDigits(n);
    if n < 16 {
      assert d[..0] == [];
    } else {
      HexValueOfDigits(n / 16);
      assert d[..|d| - 1] == HexDigits(n / 16);
      DigitValueOfHexDigit(n % 16);
    }
  }

  /** A leading '0' does not change the value. */
  lemma {:induction false} HexValueLeadingZero(d: string)
    ensures HexValue("0" + d) == HexValue(d)
    decreases |d|
  {
    if d != [] {
      var z := "0" + d;
      assert z[..|z| - 1] == "0" + d[..|d| - 1];
      assert z[|z| - 1] == d[|d| - 1];
      HexValueLeadingZero(d[..|d| - 1]);
    } else {
      assert ("0" + d)[..0] == [];
    }
  }

  /** The two-character groups of an even-length string. */
  function Chunks(d: string): (ps: seq<string>)
    requires |d| % 2 == 0
    ensures AllPairs(ps) && |ps| == |d| / 2
  {
    if d == [] then [] else [d[..2]] + Chunks(d[2..])
  }

  function Concat(ps: seq<string>): string
  {
    if ps == [] then "" else ps[0] + Concat(ps[1..])
  }

  lemma {:induction false} ConcatChunks(d: string)
    requires |d| % 2 == 0
    ensures Concat(Chunks(d)) == d
    decreases |d|
  {
    if d != [] {
      ConcatChunks(d[2..]);
      assert Chunks(d)[1..] == Chunks(d[2..]);
      assert d[..2] + d[2..] == d;
    }
  }

  /** The digits of n left-padded with '0' to an even length. */
  function PaddedHexDigits(n: nat): (d: string)
    ensures |d| % 2 == 0 && |d| >= 2
  {
    var hn := HexDigits(n);
    if |hn| % 2 == 1 then "0" + hn else hn
  }

  /** hexNum(n): the padded digits grouped in pairs, bracketed. */
  function HexNum(n: nat): (r: string)
    ensures |r| >= 2 && r[0] == '[' && r[|r| - 1] == ']'
  {
    Bracketed(Chunks(PaddedHexDigits(n)))
  }

  /** unHexNum(s): the groups concatenated and read as one number. */
  function UnHexNum(s: string): (r: Option<nat>)
    // the brackets are asserted, and "[]" is no number
    ensures r.Some? ==> |s| > 2 && s[0] == '[' && s[|s| - 1] == ']'
  {
    match SplitBracketed(s)
    case None => None
    case Some(ps) => ParseHexNumber(Concat(ps))
  }

  /** unHexNum(hexNum(n)) == n for every non-negative n. */
  lemma UnHexNumRoundTrip(n: nat)
    ensures UnHexNum(HexNum(n)) == Some(n)
  {
    var d := PaddedHexDigits(n);
    SplitBracketedRoundTrip(Chunks(d));
    ConcatChunks(d);
    HexValueOfDigits(n);
    if |HexDigits(n)| % 2 == 1 {
      HexValueLeadingZero(HexDigits(n));
    }
  }

  lemma ChunksOfFour(d: string)
    requires |d| == 4
    ensures Chunks(d) == [d[..2], d[2..]]
  {
    var t := d[2..];
    assert t[..2] == t && t[2..] == [];
  }

  lemma ChunksOfSix(d: string)
    requires |d| == 6
    ensures Chunks(d) == [d[..2], d[2..4], d[4..]]
  {
    ChunksOfFour(d[2..]);
    assert d[2..][..2] == d[2..4] && d[2..][2..] == d[4..];
  }

  lemma ChunksOfEight(d: string)
    requires |d| == 8
    ensures Chunks(d) == [d[..2], d[2..4], d[4..6], d[6..]]
  {
    ChunksOfSix(d[2..]);
    assert d[2..][..2] == d[2..4] && d[2..][2..4] == d[4..6] && d[2..][4..] == d[6..];
  }

  /** The test vectors of testVectors for hexNum. */
  lemma HexNumTestVector10000()
    ensures HexNum(10000) == "[27 10]"
  {
    assert HexDigits(2) == "2";
    assert HexDigits(39) == "27";
    assert HexDigits(625) == "271";
    assert HexDigits(10000) == "2710";
    ChunksOfFour("2710");
    assert "2710"[..2] == "27" && "2710"[2..] == "10";
    assert JoinPairs(["27", "10"]) == "27 10";
  }

  lemma HexDigitsOf100000()
    ensures HexDigits(100000) == "186A0"
  {
    assert HexDigits(1) == "1";
    assert HexDigits(24) == "18";
    assert HexDigits(390) == "186";
    assert HexDigits(6250) == "186A";
  }

  lemma PaddedOf100000(n: nat)
    requires n == 100000
    ensures PaddedHexDigits(n) == "0186A0"
  {
    HexDigitsOf100000();
  }

  lemma ChunksOf0186A0(d: string)
    requires d == "0186A0"
    ensures Chunks(d) == ["01", "86", "A0"]
  {
    ChunksOfSix(d);
    assert d[..2] == "01" && d[2..4] == "86" && d[4..] == "A0";
  }

  lemma HexNumTestVector100000(n: nat)
    requires n == 100000
    ensures HexNum(n) == "[01 86 A0]"
  {
    PaddedOf100000(n);
    ChunksOf0186A0("0186A0");
    JoinOfThree("01", "86", "A0");
  }

  lemma JoinOfThree(a: string, b: string, c: string)
    ensures JoinPairs([a, b, c]) == a + " " + b + " " + c
  {
    JoinCons(b, [c]);
    JoinCons(a, [b, c]);
  }

  lemma HexDigitsOf1000000000()
    ensures HexDigits(1000000000) == "3B9ACA00"
  {
    assert HexDigits(3) == "3";
    assert HexDigits(59) == "3B";
    assert HexDigits(953) == "3B9";
    assert HexDigits(15258) == "3B9A";
    assert HexDigits(244140) == "3B9AC";
    assert HexDigits(3906250) == "3B9ACA";
    assert HexDigits(62500000) == "3B9ACA0";
  }

  lemma JoinOfFour(a: string, b: string, c: string, d: string)
    ensures JoinPairs([a, b, c, d]) == a + " " + b + " " + c + " " + d
  {
    JoinCons(c, [d]);
    JoinCons(b, [c, d]);
    JoinCons(a, [b, c, d]);
  }

  lemma ChunksTestVector(d: string)
    requires d == "3B9ACA00"
    ensures Chunks(d) == ["3B", "9A", "CA", "00"]
  {
    ChunksOfEight(d);
    assert d[..2] == "3B" && d[2..4] == "9A" && d[4..6] == "CA" && d[6..] == "00";
  }

  lemma HexNumTestVector1000000000(n: nat)
    requires n == 1000000000
    ensures HexNum(n) == "[3B 9A CA 00]"
  {
    PaddedTestVector(n);
    ChunksTestVector("3B9ACA00");
    JoinTestVector(["3B", "9A", "CA", "00"]);
  }

  lemma JoinTestVector(ps: seq<string>)
    requires ps == ["3B", "9A", "CA", "00"]
    ensures JoinPairs(ps) == "3B 9A CA 00"
  {
    JoinOfFour("3B", "9A", "CA", "00");
  }

  lemma PaddedTestVector(n: nat)
    requires n == 1000000000
    ensures PaddedHexDigits(n) == "3B9ACA00"
  {
    HexDigitsOf1000000000();
  }

  // ---------------------------------------------------------------------
  // CyclicRNG

  /** The byte pattern chr(0) .. chr(255). */
  function Pattern(): (p: seq<byte>)
    ensures |p| == 256 && forall j :: 0 <= j < 256 ==> p[j] == j as byte
  {
    seq(256, j requires 0 <= j < 256 => j as byte)
  }

  /** pattern * reps */
  function Repeat(p: seq<byte>, reps: nat): (r: seq<byte>)
    ensures |r| == |p| * reps
  {
    if reps == 0 then [] else p + Repeat(p, reps - 1)
  }

  lemma {:induction false} RepeatAt(reps: nat, j: nat)
    requires j < 256 * reps
    ensures Repeat(Pattern(), reps)[j] as int == j % 256
  {
    if j >= 256 {
      RepeatAt(reps - 1, j - 256);
    }
  }

  /** A counter-mode generator whose stream is 0, 1, ..., 255, 0, 1, ... */
  class CyclicRNG {
    var idx: nat

    ghost predicate Valid()
      reads this
    {
      idx < 256
    }

    constructor ()
      ensures Valid() && idx == 0
    {
      idx := 0;
    }

    /** _prng(n): the next n bytes of the cyclic stream. */
    method Prng(n: nat) returns (r: seq<byte>)
      requires Valid()
      modifies this
      ensures Valid()
      ensures |r| == n
      ensures forall k :: 0 <= k < n ==> r[k] as int == (old(idx) + k) % 256
      ensures idx == (old(idx) + n) % 256
    {
      var reps := (n + idx + 255) / 256;  // ceilDiv(n + idx, 256)
      var stream := Repeat(Pattern(), reps);
      r := stream[idx..idx + n];
      forall k | 0 <= k < n
        ensures r[k] as int == (old(idx) + k) % 256
      {
        RepeatAt(reps, idx + k);
      }
      idx := (idx + n) % 256;
    }
  }
}
