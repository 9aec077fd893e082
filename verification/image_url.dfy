/** Reward image paths `../premios/<id>/<n>.jpeg`, with the id passed through
    `encodeURIComponent` (UTF-8, upper-case `%XX`) and `n` stripped to its digits. */
module ImageUrl {
  import opened Js

  /** Characters `encodeURIComponent` leaves alone. */
  predicate Unreserved(c: char)
  {
    ('A' <= c <= 'Z') || ('a' <= c <= 'z') || ('0' <= c <= '9') ||
    c == '-' || c == '_' || c == '.' || c == '!' || c == '~' ||
    c == '*' || c == '\'' || c == '(' || c == ')'
  }

  predicate IsByte(b: int) { 0 <= b < 256 }

  /** UTF-8 bytes of one code point. */
  function Utf8(c: char): (bs: seq<int>)
    ensures 1 <= |bs| <= 4
    ensures forall i :: 0 <= i < |bs| ==> IsByte(bs[i])
    ensures (c as int) < 0x80 <==> |bs| == 1
    ensures |bs| == 1 ==> bs[0] == c as int
    ensures |bs| > 1 ==> forall i :: 0 <= i < |bs| ==> bs[i] >= 0x80
  {
    var cp := c as int;
    if cp < 0x80 then [cp]
    else if cp < 0x800 then [0xC0 + cp / 64, 0x80 + cp % 64]
    else if cp < 0x10000 then [0xE0 + cp / 4096, 0x80 + (cp / 64) % 64, 0x80 + cp % 64]
    else [0xF0 + cp / 262144, 0x80 + (cp / 4096) % 64, 0x80 + (cp / 64) % 64, 0x80 + cp % 64]
  }

  function Utf8String(s: string): (bs: seq<int>)
    ensures forall i :: 0 <= i < |bs| ==> IsByte(bs[i])
  {
    if s == [] then [] else Utf8(s[0]) + Utf8String(s[1..])
  }

  predicate IsHexDigit(c: char)
  {
    ('0' <= c <= '9') || ('A' <= c <= 'F')
  }

  function HexDigit(d: int): (c: char)
    requires 0 <= d < 16
    ensures IsHexDigit(c)
  {
    "0123456789ABCDEF"[d]
  }

  function HexValue(c: char): int
  {
    if '0' <= c <= '9' then c as int - '0' as int
    else if 'A' <= c <= 'F' then c as int - 'A' as int + 10
    else 0
  }

  lemma HexDigitValue(d: int)
    requires 0 <= d < 16
    ensures HexValue(HexDigit(d)) == d
  {
  }

  /** One byte as it appears in the output: the character itself when it is an
      unreserved ASCII character, `%XX` otherwise. */
  function EscapeByte(b: int): (r: string)
    requires IsByte(b)
    ensures |r| == 1 || |r| == 3
    ensures |r| == 1 ==> Unreserved(r[0]) && r[0] as int == b
    ensures |r| == 3 ==> r[0] == '%' && IsHexDigit(r[1]) && IsHexDigit(r[2])
  {
    if b < 0x80 && Unreserved(b as char) then [b as char]
    else ['%', HexDigit(b / 16), HexDigit(b % 16)]
  }

  function EscapeBytes(bs: seq<int>): string
    requires forall i :: 0 <= i < |bs| ==> IsByte(bs[i])
  {
    if bs == [] then "" else EscapeByte(bs[0]) + EscapeBytes(bs[1..])
  }

  /** `encodeURIComponent(s)`. */
  function EncodeUriComponent(s: string): string
  {
    EscapeBytes(Utf8String(s))
  }

  /** The output alphabet of the escaping: unreserved characters, `%` and
      upper-case hex digits. */
  predicate SafeChar(c: char)
  {
    Unreserved(c) || c == '%'
  }

  lemma {:induction false} EscapeBytesSafe(bs: seq<int>)
    requires forall i :: 0 <= i < |bs| ==> IsByte(bs[i])
    ensures forall i :: 0 <= i < |EscapeBytes(bs)| ==> SafeChar(EscapeBytes(bs)[i])
    decreases |bs|
  {
    if bs != [] {
      EscapeBytesSafe(bs[1..]);
      var e := EscapeByte(bs[0]);
      var rest := EscapeBytes(bs[1..]);
      assert EscapeBytes(bs) == e + rest;
      forall i | 0 <= i < |e + rest|
        ensures SafeChar((e + rest)[i])
      {
        if i < |e| {
          assert (e + rest)[i] == e[i];
        } else {
          assert (e + rest)[i] == rest[i - |e|];
        }
      }
    }
  }

  /** The encoded id never contains `/`, so it is always exactly one path segment. */
  lemma EncodedIsOneSegment(s: string)
    ensures forall i :: 0 <= i < |EncodeUriComponent(s)| ==> EncodeUriComponent(s)[i] != '/'
  {
    EscapeBytesSafe(Utf8String(s));
  }

  /** `%XX` decoding of an escaped string back to bytes. */
  function UnescapeBytes(t: string): seq<int>
    decreases |t|
  {
    if t == [] then []
    else if t[0] == '%' && |t| >= 3 then [HexValue(t[1]) * 16 + HexValue(t[2])] + UnescapeBytes(t[3..])
    else [t[0] as int] + UnescapeBytes(t[1..])
  }

  /** The escaping loses nothing: decoding it gives back the UTF-8 bytes. */
  lemma {:induction false} UnescapeEscapeBytes(bs: seq<int>)
    requires forall i :: 0 <= i < |bs| ==> IsByte(bs[i])
    ensures UnescapeBytes(EscapeBytes(bs)) == bs
    decreases |bs|
  {
    if bs != [] {
      var b := bs[0];
      var e := EscapeByte(b);
      var rest := EscapeBytes(bs[1..]);
      UnescapeEscapeBytes(bs[1..]);
      assert EscapeBytes(bs) == e + rest;
      if |e| == 3 {
        HexDigitValue(b / 16);
        HexDigitValue(b % 16);
        assert (e + rest)[3..] == rest;
      } else {
        assert (e + rest)[1..] == rest;
      }
      assert bs == [b] + bs[1..];
    }
  }

  lemma EncodeDecodes(s: string)
    ensures UnescapeBytes(EncodeUriComponent(s)) == Utf8String(s)
  {
    UnescapeEscapeBytes(Utf8String(s));
  }

  /** A string of unreserved characters is its own encoding. */
  lemma {:induction false} EncodeUnreservedIsIdentity(s: string)
    requires forall i :: 0 <= i < |s| ==> Unreserved(s[i])
    ensures EncodeUriComponent(s) == s
    decreases |s|
  {
    if s != [] {
      EncodeUnreservedIsIdentity(s[1..]);
      assert s == [s[0]] + s[1..];
    }
  }

  /** The user id, or "default" when it is missing or empty. */
  function IdOrDefault(userId: Js<string>): string
  {
    if TruthyText(userId) then userId.v else "default"
  }

  /** `rewardImageUrlFor(userId, n)` (display) and `rewardImageUrl` (admin). */
  function RewardImageUrl(userId: Js<string>, n: int): string
  {
    "../premios/" + EncodeUriComponent(IdOrDefault(userId)) + "/" + DigitsOnly(IntToString(n)) + ".jpeg"
  }

  /** The file name is the decimal digits of `|n|` (a sign is dropped), the folder is
      the encoded id or `default`, and the folder name never contains a `/`. */
  lemma RewardImageUrlShape(userId: Js<string>, n: int)
    ensures var seg := EncodeUriComponent(IdOrDefault(userId));
      RewardImageUrl(userId, n) ==
        "../premios/" + seg + "/" + NatToString(if n < 0 then -n else n) + ".jpeg" &&
      (forall i :: 0 <= i < |seg| ==> seg[i] != '/')
    ensures !TruthyText(userId) ==> RewardImageUrl(userId, n) == RewardImageUrl(Val("default"), n)
  {
    DigitsOfIntToString(n);
    EncodedIsOneSegment(IdOrDefault(userId));
  }

  /** For the default reward catalogue (id `Mateo`, rewards 1..5) the path is
      the plain one. */
  lemma DefaultRewardPath(n: nat)
    ensures RewardImageUrl(Val("Mateo"), n) == "../premios/Mateo/" + NatToString(n) + ".jpeg"
  {
    assert IdOrDefault(Val("Mateo")) == "Mateo";
    EncodeUnreservedIsIdentity("Mateo");
    DigitsOfIntToString(n);
    assert DigitsOnly(IntToString(n)) == NatToString(n);
    assert "../premios/" + "Mateo" + "/" == "../premios/Mateo/";
  }
}
