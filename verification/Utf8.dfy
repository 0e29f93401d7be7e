/**
 UTF-8 as section 3 of RFC 3629 lays it out, and what is left of an encoded
 string when its bytes are cut and decoded with the broken end ignored.
 */
module Utf8 {
  import opened Strings

  /** The bytes of one character. */
  function Octets(c: char): (b: seq<nat>)
    ensures 1 <= |b| <= 4
  {
    var n := c as nat;
    if n < 0x80 then [n]
    else if n < 0x800 then [0xC0 + n / 64, 0x80 + n % 64]
    else if n < 0x10000 then [0xE0 + n / 4096, 0x80 + n / 64 % 64, 0x80 + n % 64]
    else [0xF0 + n / 262144, 0x80 + n / 4096 % 64, 0x80 + n / 64 % 64, 0x80 + n % 64]
  }

  function Encode(s: string): seq<nat> {
    if s == "" then [] else Octets(s[0]) + Encode(s[1..])
  }

  /** How many bytes a leading byte announces; none if it cannot lead. */
  function Announced(lead: nat): nat {
    if lead < 0x80 then 1
    else if lead < 0xC0 then 0
    else if lead < 0xE0 then 2
    else if lead < 0xF0 then 3
    else if lead < 0xF8 then 4
    else 0
  }

  function Low(b: nat): nat { b % 64 }

  function CodePoint(b: seq<nat>): nat
    requires 1 <= |b| <= 4
  {
    if |b| == 1 then b[0]
    else if |b| == 2 then b[0] % 32 * 64 + Low(b[1])
    else if |b| == 3 then b[0] % 16 * 4096 + Low(b[1]) * 64 + Low(b[2])
    else b[0] % 8 * 262144 + Low(b[1]) * 4096 + Low(b[2]) * 64 + Low(b[3])
  }

  predicate IsScalar(n: nat) {
    n < 0xD800 || 0xE000 <= n < 0x110000
  }

  /**
   Decoding with errors ignored, for bytes that were valid before they were cut:
   a sequence that lacks its last bytes is dropped.
   */
  function DecodeIgnoring(b: seq<nat>): string {
    if b == [] then ""
    else
      var n := Announced(b[0]);
      if n == 0 then DecodeIgnoring(b[1..])
      else if |b| < n then ""
      else if IsScalar(CodePoint(b[..n])) then [CodePoint(b[..n]) as char] + DecodeIgnoring(b[n..])
      else DecodeIgnoring(b[n..])
  }

  lemma OctetsAnnounce(c: char)
    ensures Announced(Octets(c)[0]) == |Octets(c)|
  {
  }

  lemma SixBits(n: nat)
    ensures n == 64 * (n / 64) + n % 64 && n / 64 / 64 == n / 4096 && n / 4096 / 64 == n / 262144
  {
  }

  lemma Low80(n: nat)
    ensures Low(0x80 + n % 64) == n % 64
  {
  }

  lemma TwoOctets(n: nat)
    requires n < 0x800
    ensures CodePoint([0xC0 + n / 64, 0x80 + n % 64]) == n
  {
    hide Low;
    Low80(n);
    assert (0xC0 + n / 64) % 32 == n / 64;
  }

  lemma ThreeOctets(n: nat)
    requires n < 0x10000
    ensures CodePoint([0xE0 + n / 4096, 0x80 + n / 64 % 64, 0x80 + n % 64]) == n
  {
    hide Low;
    Low80(n);
    Low80(n / 64);
    SixBits(n);
    SixBits(n / 64);
    assert (0xE0 + n / 4096) % 16 == n / 4096;
  }

  lemma FourOctets(n: nat)
    requires n < 0x200000
    ensures CodePoint([0xF0 + n / 262144, 0x80 + n / 4096 % 64, 0x80 + n / 64 % 64, 0x80 + n % 64]) == n
  {
    hide Low;
    Low80(n);
    Low80(n / 64);
    Low80(n / 4096);
    SixBits(n);
    SixBits(n / 64);
    SixBits(n / 4096);
    assert (0xF0 + n / 262144) % 8 == n / 262144;
  }

  lemma CodePointOfOctets(c: char)
    ensures CodePoint(Octets(c)) == c as nat
  {
    hide CodePoint;
    var n := c as nat;
    if n < 0x80 {
      assert CodePoint([n]) == n by { OneOctet(n); }
    } else if n < 0x800 {
      TwoOctets(n);
    } else if n < 0x10000 {
      ThreeOctets(n);
    } else {
      FourOctets(n);
    }
  }

  lemma OneOctet(n: nat)
    ensures CodePoint([n]) == n
  {
  }

  lemma {:induction false} EncodeConcat(a: string, b: string)
    ensures Encode(a + b) == Encode(a) + Encode(b)
  {
    if a == "" {
      assert a + b == b;
    } else {
      assert (a + b)[1..] == a[1..] + b;
      EncodeConcat(a[1..], b);
    }
  }

  /** Cutting and decoding gives the longest prefix whose bytes fit in the cut. */
  lemma {:induction false} CutDecodesToPrefix(s: string, n: nat) returns (k: nat)
    requires n <= |Encode(s)|
    ensures k <= |s| && DecodeIgnoring(Encode(s)[..n]) == s[..k]
    ensures |Encode(s[..k])| <= n
    ensures k < |s| ==> n < |Encode(s[..k + 1])|
  {
    hide *;
    if s == "" {
      k := 0;
      NoOctets();
      assert Encode(s)[..n] == [] && s[..0] == "";
    } else {
      var o, rest := Octets(s[0]), Encode(s[1..]);
      EncodeCons(s);
      OneOctets(s);
      if n < |o| {
        k := 0;
        CutShort(s[0], n);
        NoOctets();
        assert Encode(s)[..n] == o[..n] && s[..0] == "";
      } else {
        assert Encode(s)[..n] == o + rest[..n - |o|];
        var j := CutDecodesToPrefix(s[1..], n - |o|);
        FirstDecoded(s[0], rest[..n - |o|]);
        k := j + 1;
        assert s[..k] == [s[0]] + s[1..][..j];
        EncodeConcat([s[0]], s[1..][..j]);
        if k < |s| {
          assert s[..k + 1] == [s[0]] + s[1..][..j + 1];
          EncodeConcat([s[0]], s[1..][..j + 1]);
        }
      }
    }
  }

  lemma NoOctets()
    ensures Encode("") == [] && DecodeIgnoring([]) == ""
  {
  }

  lemma EncodeCons(s: string)
    requires s != ""
    ensures Encode(s) == Octets(s[0]) + Encode(s[1..])
  {
  }

  /** A character that lost bytes is dropped. */
  lemma CutShort(c: char, n: nat)
    requires n < |Octets(c)|
    ensures DecodeIgnoring(Octets(c)[..n]) == ""
  {
    OctetsAnnounce(c);
  }

  lemma OneOctets(s: string)
    requires s != ""
    ensures Encode([s[0]]) == Octets(s[0]) && Encode(s[..1]) == Octets(s[0])
  {
    assert s[..1] == [s[0]] && [s[0]][1..] == "";
    assert Octets(s[0]) + [] == Octets(s[0]);
  }

  lemma FirstDecoded(c: char, rest: seq<nat>)
    ensures DecodeIgnoring(Octets(c) + rest) == [c] + DecodeIgnoring(rest)
  {
    hide Octets, CodePoint, Announced;
    var b := Octets(c) + rest;
    OctetsAnnounce(c);
    CodePointOfOctets(c);
    assert b[..|Octets(c)|] == Octets(c) && b[|Octets(c)|..] == rest;
    assert b[0] == Octets(c)[0];
  }

  /** Encoding loses nothing. */
  lemma DecodeOfEncode(s: string)
    ensures DecodeIgnoring(Encode(s)) == s
  {
    var k := CutDecodesToPrefix(s, |Encode(s)|);
    assert Encode(s)[..|Encode(s)|] == Encode(s);
    if k < |s| {
      PrefixFits(s, k + 1);
    }
    assert s[..|s|] == s;
  }

  lemma PrefixFits(s: string, k: nat)
    requires k <= |s|
    ensures |Encode(s[..k])| <= |Encode(s)|
  {
    EncodeConcat(s[..k], s[k..]);
    assert s == s[..k] + s[k..];
  }

  /** The character whose encoding the bytes start with, if there is one. */
  function StrictHead(b: seq<nat>): (c: Option<char>)
    requires b != []
    ensures c.Some? ==> |Octets(c.value)| <= |b| && b[..|Octets(c.value)|] == Octets(c.value)
  {
    var n := Announced(b[0]);
    if n == 0 || |b| < n || !IsScalar(CodePoint(b[..n])) then None
    else
      var c := CodePoint(b[..n]) as char;
      if Octets(c) == b[..n] then Some(c) else None
  }

  /** Strict decoding: `None` unless the bytes are the encoding of some string. */
  function DecodeStrict(b: seq<nat>): (s: Option<string>)
    ensures s.Some? ==> |s.value| <= |b|
  {
    if b == [] then Some("")
    else
      var c := StrictHead(b);
      if c.None? then None
      else
        var rest := DecodeStrict(b[|Octets(c.value)|..]);
        if rest.None? then None else Some([c.value] + rest.value)
  }

  lemma {:induction false} DecodeStrictEncodes(b: seq<nat>)
    ensures DecodeStrict(b).Some? ==> Encode(DecodeStrict(b).value) == b
  {
    hide StrictHead, Octets;
    if b != [] && DecodeStrict(b).Some? {
      var n := |Octets(StrictHead(b).value)|;
      DecodeStrictEncodes(b[n..]);
      var s := DecodeStrict(b).value;
      assert s[1..] == DecodeStrict(b[n..]).value;
      assert b == b[..n] + b[n..];
    }
  }

  /** Bytes that start with the encoding of a character start with that character. */
  lemma HeadOfOctets(c: char, rest: seq<nat>)
    ensures StrictHead(Octets(c) + rest) == Some(c)
  {
    hide CodePoint, IsScalar, Announced, Octets;
    var b := Octets(c) + rest;
    OctetsAnnounce(c);
    CodePointOfOctets(c);
    CharIsScalar(c);
    assert b[0] == Octets(c)[0] && b[..|Octets(c)|] == Octets(c);
  }

  lemma {:induction false} StrictDecodeOfEncode(s: string)
    ensures DecodeStrict(Encode(s)) == Some(s)
  {
    hide StrictHead, Octets;
    if s != "" {
      StrictDecodeOfEncode(s[1..]);
      HeadOfOctets(s[0], Encode(s[1..]));
      var b := Encode(s);
      assert b[|Octets(s[0])|..] == Encode(s[1..]);
      assert [s[0]] + s[1..] == s;
    }
  }

  lemma CharIsScalar(c: char)
    ensures IsScalar(c as nat)
  {
  }

  /** The examples of section 7 of RFC 3629: A, not identical to, alpha and full stop; and a character of four bytes. */
  lemma DocumentedBytes()
    ensures Encode("A\U{2262}\U{0391}.") == [0x41, 0xE2, 0x89, 0xA2, 0xCE, 0x91, 0x2E]
    ensures Encode("\U{233B4}") == [0xF0, 0xA3, 0x8E, 0xB4]
  {
    assert Octets('A') == [0x41] && Octets('.') == [0x2E] && Octets('\U{0391}') == [0xCE, 0x91];
    assert Octets('\U{2262}') == [0xE2, 0x89, 0xA2] && Octets('\U{233B4}') == [0xF0, 0xA3, 0x8E, 0xB4];
    hide Octets;
    var s := "A\U{2262}\U{0391}.";
    assert s[1..] == "\U{2262}\U{0391}." && s[1..][1..] == "\U{0391}." && s[1..][1..][1..] == ".";
    assert "."[1..] == "" && "\U{233B4}"[1..] == "";
    EncodeCons(".");
    EncodeCons("\U{0391}.");
    EncodeCons("\U{2262}\U{0391}.");
    EncodeCons(s);
    EncodeCons("\U{233B4}");
  }
}
