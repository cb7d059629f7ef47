/** `encodeURIComponent` (ECMA-262, section 19.2.6.4): percent-encoded UTF-8, with an error
    for a lone surrogate. Proved injective and free of colons. */
module UriComponent {
  import opened Sequences
  import opened Texts

  const PERCENT: CodeUnit := 37

  /** Letters, digits and `- _ . ! ~ * ' ( )`. */
  predicate Unreserved(c: int) {
    || 65 <= c <= 90 || 97 <= c <= 122 || 48 <= c <= 57
    || c == 45 || c == 95 || c == 46 || c == 33 || c == 126 || c == 42 || c == 39 || c == 40 || c == 41
  }

  predicate HighSurrogate(c: CodeUnit) {
    0xD800 <= c <= 0xDBFF
  }

  predicate LowSurrogate(c: CodeUnit) {
    0xDC00 <= c <= 0xDFFF
  }

  /** A Unicode scalar value. */
  predicate IsPoint(p: int) {
    0 <= p < 0xD800 || 0xE000 <= p < 0x11_0000
  }

  /** The scalar values of well-formed UTF-16 text. */
  function Points(s: Text): (r: Option<seq<int>>)
    ensures r.Some? ==> forall i :: 0 <= i < |r.value| ==> IsPoint(r.value[i])
    decreases |s|
  {
    if s == [] then Some([])
    else if HighSurrogate(s[0]) then
      if |s| == 1 || !LowSurrogate(s[1]) then None
      else
        var rest := Points(s[2..]);
        if rest.None? then None
        else Some([0x1_0000 + (s[0] as int - 0xD800) * 0x400 + (s[1] as int - 0xDC00)] + rest.value)
    else if LowSurrogate(s[0]) then None
    else
      var rest := Points(s[1..]);
      if rest.None? then None else Some([s[0] as int] + rest.value)
  }

  function Octets(p: int): (r: seq<int>)
    requires IsPoint(p)
    ensures forall i :: 0 <= i < |r| ==> 0 <= r[i] < 0x100
  {
    if p < 0x80 then [p]
    else if p < 0x800 then [0xC0 + p / 64, 0x80 + p % 64]
    else if p < 0x1_0000 then [0xE0 + p / 4096, 0x80 + p / 64 % 64, 0x80 + p % 64]
    else [0xF0 + p / 262144, 0x80 + p / 4096 % 64, 0x80 + p / 64 % 64, 0x80 + p % 64]
  }

  function HexDigit(n: int): (c: CodeUnit)
    requires 0 <= n < 16
    ensures 48 <= c <= 57 || 65 <= c <= 70
  {
    if n < 10 then (48 + n) as CodeUnit else (55 + n) as CodeUnit
  }

  function Percent(octet: int): (r: Text)
    requires 0 <= octet < 0x100
    ensures |r| == 3 && r[0] == PERCENT
  {
    [PERCENT, HexDigit(octet / 16), HexDigit(octet % 16)]
  }

  function PercentAll(octets: seq<int>): (r: Text)
    requires forall i :: 0 <= i < |octets| ==> 0 <= octets[i] < 0x100
    ensures |r| == 3 * |octets|
  {
    if octets == [] then [] else Percent(octets[0]) + PercentAll(octets[1..])
  }

  function EncodePoint(p: int): (r: Text)
    requires IsPoint(p)
    ensures r != []
  {
    if Unreserved(p) then [p as CodeUnit] else PercentAll(Octets(p))
  }

  function EncodePoints(points: seq<int>): Text
    requires forall i :: 0 <= i < |points| ==> IsPoint(points[i])
  {
    if points == [] then [] else EncodePoint(points[0]) + EncodePoints(points[1..])
  }

  /** `None` stands for the thrown `URIError`. */
  function EncodeURIComponent(s: Text): Option<Text> {
    var points := Points(s);
    if points.None? then None else Some(EncodePoints(points.value))
  }

  // ---------------------------------------------------------------- injectivity

  /** The unit at `i` is no surrogate, or half of a pair. */
  predicate Paired(s: Text, i: nat)
    requires i < |s|
  {
    && (HighSurrogate(s[i]) ==> i + 1 < |s| && LowSurrogate(s[i + 1]))
    && (LowSurrogate(s[i]) ==> i > 0 && HighSurrogate(s[i - 1]))
  }

  predicate WellFormed(s: Text) {
    forall i :: 0 <= i < |s| ==> Paired(s, i)
  }

  lemma PairedBehind(s: Text, m: nat, i: nat)
    requires m <= i < |s| && (m > 0 ==> !HighSurrogate(s[m - 1]))
    ensures Paired(s[m..], i - m) <==> Paired(s, i)
  {
    hide HighSurrogate, LowSurrogate;
    if i + 1 < |s| {
      assert s[m..][i + 1 - m] == s[i + 1];
    }
  }

  lemma WellFormedTail(s: Text, m: nat)
    requires m <= |s| && (m > 0 ==> !HighSurrogate(s[m - 1]))
    requires forall i :: 0 <= i < m ==> Paired(s, i)
    ensures WellFormed(s) <==> WellFormed(s[m..])
  {
    hide Paired;
    forall i: nat | m <= i < |s| ensures Paired(s[m..], i - m) <==> Paired(s, i) {
      PairedBehind(s, m, i);
    }
    if WellFormed(s[m..]) {
      forall i | m <= i < |s| ensures Paired(s, i) {
        assert Paired(s[m..], i - m);
      }
    }
    if WellFormed(s) {
      forall i | 0 <= i < |s[m..]| ensures Paired(s[m..], i) {
        assert Paired(s, m + i);
      }
    }
  }

  /** The encoding throws exactly for text with a lone surrogate. */
  lemma {:induction false} EncodesIff(s: Text)
    ensures EncodeURIComponent(s).Some? <==> WellFormed(s)
    decreases |s|
  {
    if s == [] {
    } else if !Paired(s, 0) {
    } else {
      var m := if HighSurrogate(s[0]) then 2 else 1;
      EncodesIff(s[m..]);
      WellFormedTail(s, m);
    }
  }

  lemma {:induction false} PointsAreFaithful(a: Text, b: Text)
    requires Points(a).Some? && Points(a) == Points(b)
    ensures a == b
    decreases |a|
  {
    if a == [] || b == [] {
      assert |Points(if a == [] then b else a).value| == 0;
    } else {
      var m, n := if HighSurrogate(a[0]) then 2 else 1, if HighSurrogate(b[0]) then 2 else 1;
      var p, q := Points(a).value, Points(b).value;
      assert p[0] == q[0] && p[1..] == q[1..];
      assert p[1..] == Points(a[m..]).value && q[1..] == Points(b[n..]).value;
      assert a[..m] == b[..n];
      PointsAreFaithful(a[m..], b[n..]);
      assert a == a[..m] + a[m..] && b == b[..n] + b[n..];
    }
  }

  lemma PercentDecides(o: int, o': int, x: Text, y: Text)
    requires 0 <= o < 0x100 && 0 <= o' < 0x100 && Percent(o) + x == Percent(o') + y
    ensures o == o' && x == y
  {
    var s, s' := Percent(o) + x, Percent(o') + y;
    assert s[1] == HexDigit(o / 16) && s[2] == HexDigit(o % 16);
    assert s'[1] == HexDigit(o' / 16) && s'[2] == HexDigit(o' % 16);
    assert x == s[3..] && y == s'[3..];
  }

  lemma {:induction false} OctetsDecide(os: seq<int>, os': seq<int>, x: Text, y: Text)
    requires forall i :: 0 <= i < |os| ==> 0 <= os[i] < 0x100
    requires forall i :: 0 <= i < |os'| ==> 0 <= os'[i] < 0x100
    requires |os| == |os'| && PercentAll(os) + x == PercentAll(os') + y
    ensures os == os' && x == y
  {
    hide Percent;
    if os == [] {
      assert PercentAll(os) + x == x && PercentAll(os') + y == y;
    } else {
      var rest, rest' := PercentAll(os[1..]) + x, PercentAll(os'[1..]) + y;
      assert PercentAll(os) + x == Percent(os[0]) + rest;
      assert PercentAll(os') + y == Percent(os'[0]) + rest';
      PercentDecides(os[0], os'[0], rest, rest');
      OctetsDecide(os[1..], os'[1..], x, y);
      assert os == [os[0]] + os[1..] && os' == [os'[0]] + os'[1..];
    }
  }

  lemma LeadOctetDecidesLength(p: int, q: int)
    requires IsPoint(p) && IsPoint(q) && Octets(p)[0] == Octets(q)[0]
    ensures |Octets(p)| == |Octets(q)|
  {
  }

  lemma DivideTwice(p: nat, m: nat)
    requires m == 64 || m == 4096
    ensures p / 64 / m == p / (64 * m)
  {
    var a := p / 64;
    var b := a / m;
    assert p == 64 * a + p % 64 && a == m * b + a % m;
    if m == 64 {
      assert p == 4096 * b + (64 * (a % 64) + p % 64);
    } else {
      assert p == 262144 * b + (64 * (a % 4096) + p % 64);
    }
  }

  lemma SixBitDigits(p: nat, q: nat, m: nat)
    requires m == 64 || m == 4096
    requires p % 64 == q % 64 && p / 64 % m == q / 64 % m && p / (64 * m) == q / (64 * m)
    ensures p == q
  {
    DivideTwice(p, m);
    DivideTwice(q, m);
    assert p / 64 == q / 64;
  }

  lemma TwoSixBitDigits(a: nat, b: nat)
    requires a % 64 == b % 64 && a / 64 % 64 == b / 64 % 64
    ensures a % 4096 == b % 4096
  {
    DivideTwice(a, 64);
    DivideTwice(b, 64);
    assert a == 4096 * (a / 4096) + 64 * (a / 64 % 64) + a % 64;
    assert b == 4096 * (b / 4096) + 64 * (b / 64 % 64) + b % 64;
  }

  lemma OctetsAreFaithful(p: int, q: int)
    requires IsPoint(p) && IsPoint(q) && Octets(p) == Octets(q)
    ensures p == q
  {
    LeadOctetDecidesLength(p, q);
    var o, o' := Octets(p), Octets(q);
    assert o[0] == o'[0];
    if |o| > 1 {
      assert o[1] == o'[1];
    }
    if |o| > 2 {
      assert o[2] == o'[2];
    }
    if |o| == 3 {
      SixBitDigits(p, q, 64);
    } else if |o| == 4 {
      assert o[3] == o'[3];
      DivideTwice(p, 64);
      DivideTwice(q, 64);
      TwoSixBitDigits(p / 64, q / 64);
      SixBitDigits(p, q, 4096);
    }
  }

  lemma PointDecides(p: int, q: int, x: Text, y: Text)
    requires IsPoint(p) && IsPoint(q) && EncodePoint(p) + x == EncodePoint(q) + y
    ensures p == q && x == y
  {
    hide Percent, Octets, Unreserved;
    var s, s' := EncodePoint(p) + x, EncodePoint(q) + y;
    assert s[0] == s'[0];
    EncodedHead(p);
    EncodedHead(q);
    if Unreserved(p) {
      assert x == s[1..] && y == s'[1..];
    } else {
      assert s[..3] == Percent(Octets(p)[0]) && s'[..3] == Percent(Octets(q)[0]);
      PercentDecides(Octets(p)[0], Octets(q)[0], [], []);
      LeadOctetDecidesLength(p, q);
      OctetsDecide(Octets(p), Octets(q), x, y);
      OctetsAreFaithful(p, q);
    }
  }

  lemma EncodedHead(p: int)
    requires IsPoint(p)
    ensures EncodePoint(p)[0] == PERCENT <==> !Unreserved(p)
    ensures !Unreserved(p) ==> Octets(p) != [] && EncodePoint(p)[..3] == Percent(Octets(p)[0])
  {
  }

  lemma {:induction false} EncodePointsFaithful(ps: seq<int>, qs: seq<int>)
    requires forall i :: 0 <= i < |ps| ==> IsPoint(ps[i])
    requires forall i :: 0 <= i < |qs| ==> IsPoint(qs[i])
    requires EncodePoints(ps) == EncodePoints(qs)
    ensures ps == qs
  {
    hide EncodePoint;
    if ps != [] && qs != [] {
      PointDecides(ps[0], qs[0], EncodePoints(ps[1..]), EncodePoints(qs[1..]));
      EncodePointsFaithful(ps[1..], qs[1..]);
      assert ps == [ps[0]] + ps[1..] && qs == [qs[0]] + qs[1..];
    }
  }

  /** Different texts encode differently. */
  lemma EncodeIsInjective(a: Text, b: Text)
    requires EncodeURIComponent(a).Some? && EncodeURIComponent(a) == EncodeURIComponent(b)
    ensures a == b
  {
    hide Points, EncodePoints;
    EncodePointsFaithful(Points(a).value, Points(b).value);
    PointsAreFaithful(a, b);
  }

  lemma {:induction false} EncodePointsColonFree(points: seq<int>)
    requires forall i :: 0 <= i < |points| ==> IsPoint(points[i])
    ensures COLON !in EncodePoints(points)
  {
    hide Octets;
    if points == [] {
    } else {
      EncodePointsColonFree(points[1..]);
      if !Unreserved(points[0]) {
        PercentColonFree(Octets(points[0]));
      }
    }
  }

  lemma {:induction false} PercentColonFree(octets: seq<int>)
    requires forall i :: 0 <= i < |octets| ==> 0 <= octets[i] < 0x100
    ensures COLON !in PercentAll(octets)
  {
    if octets == [] {
    } else {
      PercentColonFree(octets[1..]);
    }
  }

  lemma EncodeIsColonFree(s: Text)
    requires EncodeURIComponent(s).Some?
    ensures COLON !in EncodeURIComponent(s).value
  {
    EncodePointsColonFree(Points(s).value);
  }

  // ---------------------------------------------------------------- decoding

  /** The UTF-16 code units of a scalar value. */
  function Units(p: int): (r: Text)
    requires IsPoint(p)
    ensures r != []
  {
    if p < 0x1_0000 then [p as CodeUnit]
    else
      [(0xD800 + (p - 0x1_0000) / 0x400) as CodeUnit, (0xDC00 + (p - 0x1_0000) % 0x400) as CodeUnit]
  }

  function UnitsOf(points: seq<int>): Text
    requires forall i :: 0 <= i < |points| ==> IsPoint(points[i])
  {
    if points == [] then [] else Units(points[0]) + UnitsOf(points[1..])
  }

  lemma {:induction false} PointsSpell(s: Text)
    requires Points(s).Some?
    ensures UnitsOf(Points(s).value) == s
    decreases |s|
  {
    if s == [] {
    } else {
      var m := if HighSurrogate(s[0]) then 2 else 1;
      var points := Points(s).value;
      PointsSpell(s[m..]);
      assert points[1..] == Points(s[m..]).value;
      assert Units(points[0]) == s[..m];
    }
  }

  function HexValue(c: CodeUnit): nat {
    if 48 <= c <= 57 then c as int - 48 else if 65 <= c <= 70 then c as int - 55 else 0
  }

  /** The octet that the percent sign at the front introduces. */
  function ReadOctet(s: Text): int
    requires |s| >= 3
  {
    16 * HexValue(s[1]) + HexValue(s[2])
  }

  /** Length of a UTF-8 sequence, from its first octet. */
  function SequenceLength(lead: int): (n: nat)
    ensures 1 <= n <= 4
  {
    if lead < 0x80 then 1 else if lead < 0xE0 then 2 else if lead < 0xF0 then 3 else 4
  }

  function ReadOctets(s: Text, n: nat): (r: seq<int>)
    requires |s| >= 3 * n
    ensures |r| == n
  {
    if n == 0 then [] else [ReadOctet(s)] + ReadOctets(s[3..], n - 1)
  }

  /** The scalar value of a UTF-8 sequence. */
  function PointOf(o: seq<int>): int
    requires 1 <= |o| <= 4
  {
    if |o| == 1 then o[0]
    else if |o| == 2 then (o[0] - 0xC0) * 64 + (o[1] - 0x80)
    else if |o| == 3 then (o[0] - 0xE0) * 4096 + (o[1] - 0x80) * 64 + (o[2] - 0x80)
    else (o[0] - 0xF0) * 262144 + (o[1] - 0x80) * 4096 + (o[2] - 0x80) * 64 + (o[3] - 0x80)
  }

  /** The smallest scalar value that needs a sequence of the given length: longer forms are
      not UTF-8. */
  function SmallestPoint(n: nat): int {
    if n <= 1 then 0 else if n == 2 then 0x80 else if n == 3 then 0x800 else 0x1_0000
  }

  /** `decodeURIComponent` (ECMA-262, section 19.2.6.2), as far as encoded text needs it. */
  function DecodeURIComponent(s: Text): Option<Text> {
    if s == [] then Some([])
    else if s[0] != PERCENT then
      var rest := DecodeURIComponent(s[1..]);
      if rest.None? then None else Some([s[0]] + rest.value)
    else if |s| < 3 || |s| < 3 * SequenceLength(ReadOctet(s)) then None
    else
      var n := SequenceLength(ReadOctet(s));
      var p := PointOf(ReadOctets(s, n));
      var rest := DecodeURIComponent(s[3 * n..]);
      if !IsPoint(p) || p < SmallestPoint(n) || rest.None? then None else Some(Units(p) + rest.value)
  }

  lemma ReadPercent(octet: int, rest: Text)
    requires 0 <= octet < 0x100
    ensures ReadOctet(Percent(octet) + rest) == octet && (Percent(octet) + rest)[3..] == rest
  {
  }

  lemma {:induction false} ReadPercentAll(octets: seq<int>, rest: Text)
    requires forall i :: 0 <= i < |octets| ==> 0 <= octets[i] < 0x100
    ensures var s := PercentAll(octets) + rest;
      ReadOctets(s, |octets|) == octets && s[3 * |octets|..] == rest
  {
    hide Percent, ReadOctet;
    var s := PercentAll(octets) + rest;
    if octets == [] {
      assert s == rest;
    } else {
      ReadPercentAll(octets[1..], rest);
      ReadPercent(octets[0], PercentAll(octets[1..]) + rest);
      assert s == Percent(octets[0]) + (PercentAll(octets[1..]) + rest);
      assert s[3 * |octets|..] == s[3..][3 * |octets[1..]|..];
    }
  }

  lemma PointOfOctets(p: int)
    requires IsPoint(p)
    ensures var octets := Octets(p);
      1 <= |octets| <= 4 && SequenceLength(octets[0]) == |octets| && PointOf(octets) == p >= SmallestPoint(|octets|)
  {
    if p >= 0x800 {
      DivideTwice(p, 64);
      DivideTwice(p, 4096);
      assert p == 64 * (p / 64) + p % 64;
      assert p / 64 == 64 * (p / 4096) + p / 64 % 64;
      if p >= 0x1_0000 {
        DivideTwice(p / 64, 64);
        assert p / 4096 == 64 * (p / 262144) + p / 4096 % 64;
      }
    }
  }

  lemma PointDecodes(p: int, rest: Text)
    requires IsPoint(p) && DecodeURIComponent(rest).Some?
    ensures DecodeURIComponent(EncodePoint(p) + rest) == Some(Units(p) + DecodeURIComponent(rest).value)
  {
    hide Octets, PercentAll, Percent, PointOf, ReadOctet, SequenceLength, SmallestPoint, IsPoint;
    var s := EncodePoint(p) + rest;
    EncodedHead(p);
    if Unreserved(p) {
      assert s[0] == p as CodeUnit && s[1..] == rest;
    } else {
      var octets := Octets(p);
      PointOfOctets(p);
      ReadPercentAll(octets, rest);
      assert ReadOctets(s, |octets|)[0] == ReadOctet(s);
    }
  }

  lemma {:induction false} PointsDecode(points: seq<int>)
    requires forall i :: 0 <= i < |points| ==> IsPoint(points[i])
    ensures DecodeURIComponent(EncodePoints(points)) == Some(UnitsOf(points))
  {
    hide EncodePoint, Units, IsPoint;
    if points == [] {
    } else {
      PointsDecode(points[1..]);
      PointDecodes(points[0], EncodePoints(points[1..]));
    }
  }

  /** Decoding undoes encoding. */
  lemma DecodeUndoesEncode(s: Text)
    requires EncodeURIComponent(s).Some?
    ensures DecodeURIComponent(EncodeURIComponent(s).value) == Some(s)
  {
    hide Points, EncodePoints, DecodeURIComponent, UnitsOf;
    PointsDecode(Points(s).value);
    PointsSpell(s);
  }

  /** The characters that encode as themselves: the unreserved marks, letters and digits. */
  lemma StaysIff(c: char)
    requires c as int < 0x1_0000
    ensures EncodeURIComponent([c as int as CodeUnit]) == Some([c as int as CodeUnit]) <==>
      'A' <= c <= 'Z' || 'a' <= c <= 'z' || '0' <= c <= '9' || c in "-_.!~*'()"
  {
    hide Percent, Octets;
    var s := [c as int as CodeUnit];
    assert s[1..] == [] && Points([]) == Some([]);
    if Points(s).Some? {
      assert Points(s).value == [c as int] && [c as int][1..] == [];
      EncodedHead(c as int);
      assert EncodePoints([c as int]) == EncodePoint(c as int) + [];
    }
  }
}
