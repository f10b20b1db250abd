/** Cutting notification texts to the limits of SNS without splitting a character.  Texts are
    bytes; what counts as well-formed is section 4 of RFC 3629. */
module Sns {

  type Byte = b: int | 0 <= b < 256

  // ----- UTF-8 -----

  predicate IsTail(b: Byte) { 0x80 <= b < 0xC0 }

  /** Go's test for the first byte of a character; it also accepts bytes UTF-8 never uses. */
  predicate RuneStart(b: Byte) { !IsTail(b) }

  /** The length of the well-formed character a text begins with, 0 if there is none. */
  function RuneLength(s: seq<Byte>): (n: nat)
    ensures n <= |s| && n <= 4
  {
    if s == [] then 0
    else if s[0] < 0x80 then 1
    else if |s| >= 2 && 0xC2 <= s[0] <= 0xDF && IsTail(s[1]) then 2
    else if |s| >= 3 && IsTail(s[1]) && IsTail(s[2])
            && (|| (s[0] == 0xE0 && s[1] >= 0xA0)
                || 0xE1 <= s[0] <= 0xEC
                || (s[0] == 0xED && s[1] <= 0x9F)
                || 0xEE <= s[0] <= 0xEF) then 3
    else if |s| >= 4 && IsTail(s[1]) && IsTail(s[2]) && IsTail(s[3])
            && (|| (s[0] == 0xF0 && s[1] >= 0x90)
                || 0xF1 <= s[0] <= 0xF3
                || (s[0] == 0xF4 && s[1] <= 0x8F)) then 4
    else 0
  }

  predicate ValidUtf8(s: seq<Byte>)
    decreases |s|
  {
    s == [] || (RuneLength(s) > 0 && ValidUtf8(s[RuneLength(s)..]))
  }

  // ----- What well-formed means: the characters a text encodes -----

  /** A code point that is no surrogate. */
  predicate Scalar(cp: int) { 0 <= cp < 0x110000 && !(0xD800 <= cp < 0xE000) }

  /** The bytes of a character, by section 3 of RFC 3629. */
  function Encode(cp: int): seq<Byte>
    requires Scalar(cp)
  {
    if cp < 0x80 then [cp]
    else if cp < 0x800 then [0xC0 + cp / 64, 0x80 + cp % 64]
    else if cp < 0x10000 then [0xE0 + cp / 4096, 0x80 + cp / 64 % 64, 0x80 + cp % 64]
    else [0xF0 + cp / 262144, 0x80 + cp / 4096 % 64, 0x80 + cp / 64 % 64, 0x80 + cp % 64]
  }

  predicate Scalars(cps: seq<int>) {
    forall i :: 0 <= i < |cps| ==> Scalar(cps[i])
  }

  function EncodeAll(cps: seq<int>): seq<Byte>
    requires Scalars(cps)
  {
    if cps == [] then [] else Encode(cps[0]) + EncodeAll(cps[1..])
  }

  /** The bits of the two leading bytes of a character of three. */
  lemma ThreeLead(cp: int)
    requires Scalar(cp) && 0x800 <= cp < 0x10000
    ensures 0 <= cp / 4096 <= 15
    ensures (cp / 4096 == 0 ==> cp / 64 % 64 >= 32) && (cp / 4096 == 13 ==> cp / 64 % 64 < 32)
  {
    assert cp == cp / 4096 * 4096 + cp / 64 % 64 * 64 + cp % 64;
  }

  /** And of one of four. */
  lemma FourLead(cp: int)
    requires 0x10000 <= cp < 0x110000
    ensures 0 <= cp / 262144 <= 4
    ensures (cp / 262144 == 0 ==> cp / 4096 % 64 >= 16) && (cp / 262144 == 4 ==> cp / 4096 % 64 < 16)
  {
    assert cp == cp / 262144 * 262144 + cp / 4096 % 64 * 4096 + cp % 4096;
  }

  lemma LengthOfThree(s: seq<Byte>, x: int, y: int, z: int)
    requires |s| >= 3 && s[0] == 0xE0 + x && s[1] == 0x80 + y && s[2] == 0x80 + z
    requires 0 <= x <= 15 && 0 <= y < 64 && 0 <= z < 64 && (x == 0 ==> y >= 32) && (x == 13 ==> y < 32)
    ensures RuneLength(s) == 3
  {
  }

  lemma LengthOfFour(s: seq<Byte>, w: int, x: int, y: int, z: int)
    requires |s| >= 4 && s[0] == 0xF0 + w && s[1] == 0x80 + x && s[2] == 0x80 + y && s[3] == 0x80 + z
    requires 0 <= w <= 4 && 0 <= x < 64 && 0 <= y < 64 && 0 <= z < 64 && (w == 0 ==> x >= 16) && (w == 4 ==> x < 16)
    ensures RuneLength(s) == 4
  {
  }

  /** Every encoded character is recognised, at its length. */
  lemma EncodedIsRune(cp: int, rest: seq<Byte>)
    requires Scalar(cp)
    ensures RuneLength(Encode(cp) + rest) == |Encode(cp)|
  {
    var s := Encode(cp) + rest;
    if 0x800 <= cp < 0x10000 {
      ThreeLead(cp);
      LengthOfThree(s, cp / 4096, cp / 64 % 64, cp % 64);
    } else if cp >= 0x10000 {
      FourLead(cp);
      LengthOfFour(s, cp / 262144, cp / 4096 % 64, cp / 64 % 64, cp % 64);
    }
  }

  lemma Sextets(a: int, b: int)
    requires 0 <= b < 64
    ensures (a * 64 + b) / 64 == a && (a * 64 + b) % 64 == b
  {
  }

  lemma TwoBytes(a: int, b: int) returns (cp: int)
    requires 0xC2 <= a <= 0xDF && 0x80 <= b < 0xC0
    ensures Scalar(cp) && Encode(cp) == [a, b]
  {
    cp := (a - 0xC0) * 64 + (b - 0x80);
    Sextets(a - 0xC0, b - 0x80);
  }

  lemma ThreeBytes(a: int, b: int, c: int) returns (cp: int)
    requires 0xE0 <= a <= 0xEF && 0x80 <= b < 0xC0 && 0x80 <= c < 0xC0
    requires (a == 0xE0 ==> b >= 0xA0) && (a == 0xED ==> b <= 0x9F)
    ensures Scalar(cp) && Encode(cp) == [a, b, c]
  {
    var high := (a - 0xE0) * 64 + (b - 0x80);
    cp := high * 64 + (c - 0x80);
    Sextets(high, c - 0x80);
    Sextets(a - 0xE0, b - 0x80);
    assert cp / 4096 == a - 0xE0;
  }

  lemma FourBytes(a: int, b: int, c: int, d: int) returns (cp: int)
    requires 0xF0 <= a <= 0xF4 && 0x80 <= b < 0xC0 && 0x80 <= c < 0xC0 && 0x80 <= d < 0xC0
    requires (a == 0xF0 ==> b >= 0x90) && (a == 0xF4 ==> b <= 0x8F)
    ensures Scalar(cp) && Encode(cp) == [a, b, c, d]
  {
    var high := (a - 0xF0) * 64 + (b - 0x80);
    var mid := high * 64 + (c - 0x80);
    cp := mid * 64 + (d - 0x80);
    Sextets(mid, d - 0x80);
    Sextets(high, c - 0x80);
    Sextets(a - 0xF0, b - 0x80);
    assert cp / 262144 == a - 0xF0 && cp / 4096 == high;
  }

  /** The code point of the character a text begins with. */
  lemma RuneIsEncoded(s: seq<Byte>) returns (cp: int)
    requires RuneLength(s) > 0
    ensures Scalar(cp) && s[..RuneLength(s)] == Encode(cp)
  {
    var n := RuneLength(s);
    if n == 1 {
      cp := s[0];
    } else if n == 2 {
      cp := TwoBytes(s[0], s[1]);
    } else if n == 3 {
      cp := ThreeBytes(s[0], s[1], s[2]);
    } else {
      cp := FourBytes(s[0], s[1], s[2], s[3]);
    }
  }

  lemma {:induction false} EncodedIsValid(cps: seq<int>)
    requires Scalars(cps)
    ensures ValidUtf8(EncodeAll(cps))
  {
    if cps != [] {
      EncodedIsRune(cps[0], EncodeAll(cps[1..]));
      EncodedIsValid(cps[1..]);
      assert EncodeAll(cps)[|Encode(cps[0])|..] == EncodeAll(cps[1..]);
    }
  }

  lemma OneMoreEncoded(cp: int, rest: seq<int>)
    requires Scalar(cp) && Scalars(rest)
    ensures Scalars([cp] + rest) && EncodeAll([cp] + rest) == Encode(cp) + EncodeAll(rest)
  {
    assert ([cp] + rest)[1..] == rest;
  }

  lemma {:induction false} ValidIsEncoded(s: seq<Byte>) returns (cps: seq<int>)
    requires ValidUtf8(s)
    ensures Scalars(cps) && EncodeAll(cps) == s
    decreases |s|
  {
    if s == [] {
      cps := [];
    } else {
      var head, tail := s[..RuneLength(s)], s[RuneLength(s)..];
      assert s == head + tail;
      var cp := RuneIsEncoded(s);
      var rest := ValidIsEncoded(tail);
      OneMoreEncoded(cp, rest);
      cps := [cp] + rest;
    }
  }

  /** A text is well-formed exactly if it encodes characters. */
  lemma ValidIffEncoded(s: seq<Byte>)
    ensures ValidUtf8(s) <==> exists cps :: Scalars(cps) && EncodeAll(cps) == s
  {
    if ValidUtf8(s) {
      var cps := ValidIsEncoded(s);
    } else if cps :| Scalars(cps) && EncodeAll(cps) == s {
      EncodedIsValid(cps);
    }
  }

  // ----- Where a character starts -----

  /** Only the bytes of the character itself matter. */
  lemma RuneLengthIsLocal(s: seq<Byte>, t: seq<Byte>)
    requires 0 < RuneLength(s) <= |t| && s[..RuneLength(s)] == t[..RuneLength(s)]
    ensures RuneLength(t) == RuneLength(s)
  {
    var n := RuneLength(s);
    assert forall i :: 0 <= i < n ==> s[i] == s[..n][i] == t[i];
  }

  /** Cutting a well-formed text before the start of a character leaves it well-formed. */
  lemma {:induction false} CutAtRuneStart(s: seq<Byte>, k: nat)
    requires ValidUtf8(s) && k <= |s|
    requires k < |s| ==> RuneStart(s[k])
    ensures ValidUtf8(s[..k])
    decreases |s|
  {
    if k > 0 {
      var n := RuneLength(s);
      assert k >= n;
      RuneLengthIsLocal(s, s[..k]);
      CutAtRuneStart(s[n..], k - n);
      assert s[..k][n..] == s[n..][..k - n];
    }
  }

  lemma ConcatRune(a: seq<Byte>, b: seq<Byte>, n: nat)
    requires 0 < n <= |a| && RuneLength(a) == n && ValidUtf8(a[n..] + b)
    ensures ValidUtf8(a + b)
  {
    assert (a + b)[..n] == a[..n];
    RuneLengthIsLocal(a, a + b);
    assert (a + b)[n..] == a[n..] + b;
  }

  lemma {:induction false} ConcatIsValid(a: seq<Byte>, b: seq<Byte>)
    requires ValidUtf8(a) && ValidUtf8(b)
    ensures ValidUtf8(a + b)
    decreases |a|
  {
    if a == [] {
      assert a + b == b;
    } else {
      ConcatIsValid(a[RuneLength(a)..], b);
      ConcatRune(a, b, RuneLength(a));
    }
  }

  /** No position of a well-formed text is more than three bytes past the start of a character. */
  lemma {:induction false} StartIsNear(s: seq<Byte>, k: nat)
    requires ValidUtf8(s) && k < |s|
    ensures exists j: nat :: k - 3 <= j <= k && RuneStart(s[j])
    decreases |s|
  {
    var n := RuneLength(s);
    if k < n {
      assert RuneStart(s[0]);
    } else {
      StartIsNear(s[n..], k - n);
      var j: nat :| k - n - 3 <= j <= k - n && RuneStart(s[n..][j]);
      assert RuneStart(s[n + j]);
    }
  }

  // ----- Cutting -----

  /** The last position at which a character starts, or 0. */
  function Boundary(s: seq<Byte>): (r: nat)
    requires s != []
    ensures r < |s|
    ensures r == 0 || RuneStart(s[r])
    ensures forall j :: r < j < |s| ==> !RuneStart(s[j])
  {
    var k := |s| - 1;
    if k > 0 && !RuneStart(s[k]) then Boundary(s[..k]) else k
  }

  /** Cutting a text at the last boundary up to k keeps a well-formed text well-formed and gives
      up at most three bytes. */
  lemma BoundaryIsSafe(s: seq<Byte>, k: nat)
    requires ValidUtf8(s) && k < |s|
    ensures ValidUtf8(s[..Boundary(s[..k + 1])])
    ensures k - 3 <= Boundary(s[..k + 1]) <= k
  {
    var r := Boundary(s[..k + 1]);
    StartIsNear(s, k);
    var j: nat :| k - 3 <= j <= k && RuneStart(s[j]);
    assert s[..k + 1][j] == s[j];
    assert RuneLength(s) > 0 && RuneStart(s[0]);
    CutAtRuneStart(s, r);
  }

  /** The loop both truncations use to find the boundary. */
  method BackOff(s: seq<Byte>, start: nat) returns (keep: nat)
    requires start < |s|
    ensures keep == Boundary(s[..start + 1])
  {
    keep := start;
    while keep > 0 && !RuneStart(s[keep])
      invariant keep <= start
      invariant Boundary(s[..keep + 1]) == Boundary(s[..start + 1])
    {
      assert s[..keep + 1][..keep] == s[..keep - 1 + 1];
      keep := keep - 1;
    }
  }

  const MAX_MESSAGE: nat := 256 * 1024 - 1024
  const MAX_SUBJECT: nat := 100

  const NOTICE :=
    "\n\n... message truncated: too many alerts to fit in one notification. "
    + "See the SmartRenew UI for the full list.\n"

  /** The bytes of a text; outside ASCII a question mark stands in. */
  function Bytes(s: string): (r: seq<Byte>)
    ensures |r| == |s|
    ensures forall i :: 0 <= i < |r| ==> r[i] < 0x80
  {
    seq(|s|, i requires 0 <= i < |s| => if s[i] < 128 as char then s[i] as int else 0x3F)
  }

  lemma {:induction false} AsciiIsValid(s: seq<Byte>)
    requires forall i :: 0 <= i < |s| ==> s[i] < 0x80
    ensures ValidUtf8(s)
  {
    if s != [] {
      AsciiIsValid(s[1..]);
    }
  }

  /** The notice, in bytes. */
  function Notice(): (r: seq<Byte>)
    ensures 0 < |r| < 200 && forall i :: 0 <= i < |r| ==> r[i] < 0x80
  {
    Bytes(NOTICE)
  }

  /** Where a message that is too long is cut. */
  function MessageCut(body: seq<Byte>): nat
    requires |body| > MAX_MESSAGE
  {
    Boundary(body[..MAX_MESSAGE - |Notice()| + 1])
  }

  lemma CutMessageIsSafe(body: seq<Byte>)
    requires ValidUtf8(body) && |body| > MAX_MESSAGE
    ensures ValidUtf8(body[..MessageCut(body)] + Notice())
    ensures MAX_MESSAGE - 3 <= MessageCut(body) + |Notice()|
  {
    BoundaryIsSafe(body, MAX_MESSAGE - |Notice()|);
    AsciiIsValid(Notice());
    ConcatIsValid(body[..MessageCut(body)], Notice());
  }

  method TruncateMessage(body: seq<Byte>) returns (r: seq<Byte>)
    ensures |body| <= 261_120 ==> r == body
    ensures |body| > 261_120 ==> r == body[..MessageCut(body)] + Notice()
    ensures |r| <= 261_120
    ensures ValidUtf8(body) ==> ValidUtf8(r)
    ensures ValidUtf8(body) && |body| > 261_120 ==> |r| >= 261_120 - 3
  {
    if |body| <= MAX_MESSAGE {
      return body;
    }
    var keep := BackOff(body, MAX_MESSAGE - |Notice()|);
    if ValidUtf8(body) {
      CutMessageIsSafe(body);
    }
    return body[..keep] + Notice();
  }

  method TruncateSubject(subject: seq<Byte>) returns (r: seq<Byte>)
    ensures |subject| <= 100 ==> r == subject
    ensures |subject| > 100 ==> r == subject[..Boundary(subject[..101])]
    ensures |r| <= 100
    ensures ValidUtf8(subject) ==> ValidUtf8(r)
    ensures ValidUtf8(subject) && |subject| > 100 ==> |r| >= 97
  {
    if |subject| <= MAX_SUBJECT {
      return subject;
    }
    var keep := BackOff(subject, MAX_SUBJECT);
    if ValidUtf8(subject) {
      BoundaryIsSafe(subject, MAX_SUBJECT);
    }
    return subject[..keep];
  }
}
