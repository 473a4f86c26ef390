/**
 * The Python string built-ins the effect script relies on: `str.lower`,
 * `str.join`, `str.rfind`, `str(int)` and right-aligned width formatting,
 * together with the inverse readers used to state round trips about them.
 */
module PyStr {
  import opened Results

  predicate IsUpper(c: char) { 'A' <= c <= 'Z' }

  predicate IsDigit(c: char) { '0' <= c <= '9' }

  /** `str.lower` on one character; only ASCII letters change case. */
  function LowerChar(c: char): char
  {
    if IsUpper(c) then (c as int - 'A' as int + 'a' as int) as char else c
  }

  /** `s.lower()`: every character mapped on its own, length unchanged. */
  function Lower(s: string): (r: string)
    ensures |r| == |s|
    ensures forall i :: 0 <= i < |s| ==> r[i] == LowerChar(s[i])
  {
    if s == [] then [] else [LowerChar(s[0])] + Lower(s[1..])
  }

  lemma {:induction false} LowerAppend(a: string, b: string)
    ensures Lower(a + b) == Lower(a) + Lower(b)
  {
    if a == [] {
      assert a + b == b;
    } else {
      assert (a + b)[1..] == a[1..] + b;
      LowerAppend(a[1..], b);
    }
  }

  /** The combined length of the pieces. */
  function TotalLength(xs: seq<string>): nat
  {
    if xs == [] then 0 else |xs[0]| + TotalLength(xs[1..])
  }

  /** `sep.join(xs)` */
  function Join(sep: string, xs: seq<string>): string
  {
    if |xs| == 0 then ""
    else if |xs| == 1 then xs[0]
    else xs[0] + sep + Join(sep, xs[1..])
  }

  /**
   * The joined text holds the pieces with one separator between each two:
   * its length adds up, it starts with the first piece and ends with the last.
   */
  lemma {:induction false} JoinShape(sep: string, xs: seq<string>)
    ensures var r := Join(sep, xs);
      && |r| == TotalLength(xs) + (if xs == [] then 0 else (|xs| - 1) * |sep|)
      && (xs != [] ==> |xs[0]| <= |r| && r[..|xs[0]|] == xs[0])
      && (xs != [] ==> |xs[|xs| - 1]| <= |r| && r[|r| - |xs[|xs| - 1]|..] == xs[|xs| - 1])
  {
    if |xs| >= 2 {
      var rest := Join(sep, xs[1..]);
      JoinShape(sep, xs[1..]);
      var r := xs[0] + sep + rest;
      assert Join(sep, xs) == r;
      assert (|xs| - 1) * |sep| == |sep| + (|xs| - 2) * |sep|;
      assert r[..|xs[0]|] == xs[0];
      assert xs[1..][|xs[1..]| - 1] == xs[|xs| - 1];
      assert r[|r| - |xs[|xs| - 1]|..] == rest[|rest| - |xs[|xs| - 1]|..];
    } else if |xs| == 1 {
      assert xs[1..] == [];
      assert Join(sep, xs)[..|xs[0]|] == xs[0];
    }
  }

  /** `[x.lower() for x in xs]` */
  function LowerEach(xs: seq<string>): seq<string>
  {
    seq(|xs|, i requires 0 <= i < |xs| => Lower(xs[i]))
  }

  /** Lowering a joined string is the same as joining the lowered pieces around a lowered separator. */
  lemma {:induction false} LowerJoin(sep: string, xs: seq<string>)
    ensures Lower(Join(sep, xs)) == Join(Lower(sep), LowerEach(xs))
  {
    if |xs| >= 2 {
      LowerAppend(xs[0] + sep, Join(sep, xs[1..]));
      LowerAppend(xs[0], sep);
      LowerJoin(sep, xs[1..]);
      assert LowerEach(xs)[1..] == LowerEach(xs[1..]);
    }
  }

  /** `s.rfind(c)`: the last index holding `c`, or -1 when there is none. */
  function RFind(s: string, c: char): (r: int)
    ensures -1 <= r < |s|
    ensures r >= 0 ==> s[r] == c
    ensures forall i :: r < i < |s| ==> s[i] != c
  {
    if s == [] then -1
    else if s[|s| - 1] == c then |s| - 1
    else RFind(s[..|s| - 1], c)
  }

  /** The three properties in RFind's contract pin its result down. */
  lemma RFindIs(s: string, c: char, k: int)
    requires -1 <= k < |s|
    requires k >= 0 ==> s[k] == c
    requires forall i :: k < i < |s| ==> s[i] != c
    ensures RFind(s, c) == k
  {
  }

  /** Appending text without `c` does not move the last `c`. */
  lemma RFindAppendWithout(a: string, b: string, c: char)
    requires c !in b
    ensures RFind(a + b, c) == RFind(a, c)
  {
    var r := RFind(a, c);
    forall i | r < i < |a + b| ensures (a + b)[i] != c {
      if i >= |a| {
        assert (a + b)[i] == b[i - |a|];
      }
    }
    RFindIs(a + b, c, r);
  }

  /** Text without `c` inserted before a tail without `c` leaves the last `c` where it was. */
  lemma RFindInsertWithout(a: string, mid: string, b: string, c: char)
    requires c !in mid && c !in b
    ensures RFind(a + mid + b, c) == RFind(a, c) == RFind(a + b, c)
  {
    RFindAppendWithout(a, b, c);
    RFindAppendWithout(a, mid, c);
    RFindAppendWithout(a + mid, b, c);
  }

  /** `s.find(c)`: the first index holding `c`, or -1 when there is none. */
  function Find(s: string, c: char): (r: int)
    ensures -1 <= r < |s|
    ensures r >= 0 ==> s[r] == c
    ensures forall i :: 0 <= i < |s| && (r < 0 || i < r) ==> s[i] != c
  {
    if s == [] then -1
    else if s[0] == c then 0
    else
      var k := Find(s[1..], c);
      if k < 0 then -1 else k + 1
  }

  /** Text without `c` followed by `c`: the first `c` sits right after the text. */
  lemma FindAfter(s: string, rest: string, c: char)
    requires c !in s
    requires rest != [] && rest[0] == c
    ensures Find(s + rest, c) == |s|
  {
    var t := s + rest;
    var r := Find(t, c);
    assert t[|s|] == c;
  }

  function DigitChar(d: int): char
    requires 0 <= d < 10
  {
    ('0' as int + d) as char
  }

  /** Decimal digits of a natural number, without leading zeros. */
  function NatToStr(n: nat): (s: string)
    ensures |s| > 0 && forall i :: 0 <= i < |s| ==> IsDigit(s[i])
    ensures |s| > 1 ==> s[0] != '0'
  {
    if n < 10 then [DigitChar(n)] else NatToStr(n / 10) + [DigitChar(n % 10)]
  }

  /** `str(n)` for an int: an optional minus sign and the decimal digits. */
  function IntToStr(n: int): (s: string)
    ensures |s| > 0 && (s[0] == '-' || IsDigit(s[0]))
    ensures forall i :: 0 < i < |s| ==> IsDigit(s[i])
  {
    if n < 0 then "-" + NatToStr(-n) else NatToStr(n)
  }

  /** `field` is `s` right-aligned in a field of `width`: spaces on the left, never truncated. */
  predicate RightAligned(field: string, s: string, width: nat)
  {
    && |field| == (if |s| >= width then |s| else width)
    && field[|field| - |s|..] == s
    && forall i :: 0 <= i < |field| - |s| ==> field[i] == ' '
  }

  /** Right-aligned width formatting of a number, as in `f"{n:2}"`. */
  function PadLeft(s: string, width: nat): string
  {
    if |s| >= width then s else Spaces(width - |s|) + s
  }

  /** Padding right-aligns the text: spaces on the left up to `width`, the text kept whole. */
  lemma PadLeftShape(s: string, width: nat)
    ensures RightAligned(PadLeft(s, width), s, width)
  {
    var r := PadLeft(s, width);
    if |s| < width {
      assert r == Spaces(width - |s|) + s;
      assert r[|r| - |s|..] == s;
    } else {
      assert r[|r| - |s|..] == r[0..] == s;
    }
  }

  function Spaces(n: nat): (r: string)
    ensures |r| == n && forall i :: 0 <= i < n ==> r[i] == ' '
  {
    if n == 0 then "" else " " + Spaces(n - 1)
  }

  /** Reads back a non-empty run of decimal digits. */
  function ParseNat(s: string): Option<nat>
  {
    if s == [] || !IsDigit(s[|s| - 1]) then None
    else
      var d := s[|s| - 1] as int - '0' as int;
      if |s| == 1 then Some(d)
      else match ParseNat(s[..|s| - 1])
        case None => None
        case Some(m) => Some(10 * m + d)
  }

  /** Reads back what IntToStr writes. */
  function ParseInt(s: string): Option<int>
  {
    if |s| > 0 && s[0] == '-' then
      match ParseNat(s[1..])
      case None => None
      case Some(m) => Some(-(m as int))
    else
      match ParseNat(s)
      case None => None
      case Some(m) => Some(m)
  }

  lemma {:induction false} NatToStrRoundTrip(n: nat)
    ensures ParseNat(NatToStr(n)) == Some(n)
  {
    if n >= 10 {
      var s := NatToStr(n);
      assert s[..|s| - 1] == NatToStr(n / 10);
      NatToStrRoundTrip(n / 10);
    }
  }

  /** ParseInt inverts `str(n)` on every int. */
  lemma IntToStrRoundTrip(n: int)
    ensures ParseInt(IntToStr(n)) == Some(n)
  {
    if n < 0 {
      NatToStrRoundTrip(-n);
      SignedParse(NatToStr(-n), -n);
    } else {
      NatToStrRoundTrip(n);
      UnsignedParse(NatToStr(n), n);
    }
  }

  /** A minus sign in front of a readable natural negates it. */
  lemma SignedParse(t: string, m: nat)
    requires ParseNat(t) == Some(m)
    ensures ParseInt("-" + t) == Some(-(m as int))
  {
    var s := "-" + t;
    assert s[0] == '-' && s[1..] == t;
  }

  /** A string of digits reads back through ParseInt as through ParseNat. */
  lemma UnsignedParse(t: string, m: nat)
    requires |t| > 0 && IsDigit(t[0]) && ParseNat(t) == Some(m)
    ensures ParseInt(t) == Some(m)
  {
  }

  /** Appending text without `c` keeps the last `c` and everything up to it. */
  lemma AppendKeepsUpToLast(a: string, b: string, c: char)
    requires c !in b
    ensures RFind(a + b, c) == RFind(a, c)
    ensures (a + b)[..RFind(a, c) + 1] == a[..RFind(a, c) + 1]
  {
    RFindAppendWithout(a, b, c);
    PrefixOfAppend(a, b, RFind(a, c) + 1);
  }

  /** A prefix that fits in the first part of a concatenation comes from that part alone. */
  lemma PrefixOfAppend(a: string, b: string, k: nat)
    requires k <= |a|
    ensures (a + b)[..k] == a[..k]
  {
  }

  /** Drops leading spaces. */
  function TrimLeft(s: string): string
  {
    if s != [] && s[0] == ' ' then TrimLeft(s[1..]) else s
  }

  lemma {:induction false} TrimLeftPadding(pad: string, t: string)
    requires forall i :: 0 <= i < |pad| ==> pad[i] == ' '
    requires t == [] || t[0] != ' '
    ensures TrimLeft(pad + t) == t
  {
    if pad == [] {
      assert pad + t == t;
    } else {
      assert (pad + t)[1..] == pad[1..] + t;
      TrimLeftPadding(pad[1..], t);
    }
  }
}
