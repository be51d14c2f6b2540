/** The base64url helpers shared, in identical copies, by `functions/lib/jwt.ts` and
    `functions/lib/hmac.ts`: `btoa` over the bytes, then the alphabet of section 5 of RFC 4648
    with the padding dropped; and back, re-padding to a multiple of four for `atob`. */
module Base64Url {
  import opened Wrappers
  import Text
  import Js

  newtype byte = x: int | 0 <= x < 256

  /** The character of a six-bit value in the standard alphabet (section 4 of RFC 4648). */
  function StdChar(v: nat): (c: char)
    requires v < 64
    ensures StdValue(c) == Some(v)
    ensures c != '=' && c != '-' && c != '_' && c != '.'
  {
    if v < 26 then ('A' as int + v) as char
    else if v < 52 then ('a' as int + v - 26) as char
    else if v < 62 then ('0' as int + v - 52) as char
    else if v == 62 then '+'
    else '/'
  }

  /** The six-bit value of a standard-alphabet character; `None` for any other character. */
  function StdValue(c: char): (r: Option<nat>)
    ensures r.Some? ==> r.value < 64
    ensures r.Some? ==> c != '=' && c != '-' && c != '_' && c != '.'
  {
    if 'A' <= c <= 'Z' then Some(c as int - 'A' as int)
    else if 'a' <= c <= 'z' then Some(c as int - 'a' as int + 26)
    else if '0' <= c <= '9' then Some(c as int - '0' as int + 52)
    else if c == '+' then Some(62)
    else if c == '/' then Some(63)
    else None
  }

  /** How many characters a final group of `r` bytes (`r` < 3) takes without padding. */
  function TailLength(r: nat): nat {
    if r == 0 then 0 else r + 1
  }

  /** The four six-bit values a group of three bytes splits into. */
  function Sextet0(x: byte): (v: nat) ensures v < 64 { x as int / 4 }
  function Sextet1(x: byte, y: byte): (v: nat) ensures v < 64 { (x as int % 4) * 16 + y as int / 16 }
  function Sextet2(y: byte, z: byte): (v: nat) ensures v < 64 { (y as int % 16) * 4 + z as int / 64 }
  function Sextet3(z: byte): (v: nat) ensures v < 64 { z as int % 64 }

  /** The three bytes four six-bit values join into. */
  function Byte0(v0: nat, v1: nat): byte requires v0 < 64 && v1 < 64 { (v0 * 4 + v1 / 16) as byte }
  function Byte1(v1: nat, v2: nat): byte requires v1 < 64 && v2 < 64 { ((v1 % 16) * 16 + v2 / 4) as byte }
  function Byte2(v2: nat, v3: nat): byte requires v2 < 64 && v3 < 64 { ((v2 % 4) * 64 + v3) as byte }

  /** Splitting into six-bit values and joining them again gives each byte back. */
  lemma JoinSplit(x: byte, y: byte, z: byte)
    ensures Byte0(Sextet0(x), Sextet1(x, y)) == x
    ensures Byte1(Sextet1(x, y), Sextet2(y, z)) == y
    ensures Byte2(Sextet2(y, z), Sextet3(z)) == z
  {
    var v1 := Sextet1(x, y);
    var v2 := Sextet2(y, z);
    assert v1 / 16 == x as int % 4 && v1 % 16 == y as int / 16;
    assert v2 / 4 == y as int % 16 && v2 % 4 == z as int / 64;
  }

  /** Every character is in the standard alphabet. */
  predicate AllStd(s: string) {
    forall i :: 0 <= i < |s| ==> StdValue(s[i]).Some?
  }

  /** One group of one to three bytes in two to four characters, unpadded. */
  function EncodeGroup(g: seq<byte>): (s: string)
    requires 1 <= |g| <= 3
    ensures |s| == |g| + 1 && AllStd(s)
  {
    if |g| == 1 then [StdChar(Sextet0(g[0])), StdChar(Sextet1(g[0], 0))]
    else if |g| == 2 then [StdChar(Sextet0(g[0])), StdChar(Sextet1(g[0], g[1])), StdChar(Sextet2(g[1], 0))]
    else [StdChar(Sextet0(g[0])), StdChar(Sextet1(g[0], g[1])), StdChar(Sextet2(g[1], g[2])), StdChar(Sextet3(g[2]))]
  }

  /** Standard base64 of the bytes without the `=` padding: four characters per three bytes, and
      a final group of one or two bytes in two or three characters. */
  function EncodeCore(b: seq<byte>): (s: string)
    ensures |s| == 4 * (|b| / 3) + TailLength(|b| % 3)
    ensures AllStd(s)
    decreases |b|
  {
    if |b| == 0 then ""
    else if |b| < 3 then EncodeGroup(b)
    else EncodeGroup(b[..3]) + EncodeCore(b[3..])
  }

  /** A text is in the alphabet exactly when both its halves are. */
  lemma AllStdSplit(t: string, k: nat)
    requires k <= |t|
    ensures AllStd(t) <==> AllStd(t[..k]) && AllStd(t[k..])
  {
    if AllStd(t[..k]) && AllStd(t[k..]) {
      forall i | 0 <= i < |t| ensures StdValue(t[i]).Some? {
        if i < k { assert t[i] == t[..k][i]; } else { assert t[i] == t[k..][i - k]; }
      }
    }
  }

  /** One group of two to four characters back to one to three bytes; `None` when a character
      is outside the alphabet. */
  function DecodeGroup(t: string): (r: Option<seq<byte>>)
    requires 2 <= |t| <= 4
    ensures r.Some? <==> AllStd(t)
    ensures r.Some? ==> |r.value| == |t| - 1
  {
    if !AllStd(t) then None
    else
      var v0, v1 := StdValue(t[0]).value, StdValue(t[1]).value;
      if |t| == 2 then Some([Byte0(v0, v1)])
      else
        var v2 := StdValue(t[2]).value;
        if |t| == 3 then Some([Byte0(v0, v1), Byte1(v1, v2)])
        else Some([Byte0(v0, v1), Byte1(v1, v2), Byte2(v2, StdValue(t[3]).value)])
  }

  /** Decodes unpadded standard base64 group by group. A lone final character, or any character
      outside the alphabet, is a failure; otherwise every four characters give three bytes and a
      final two or three characters one or two. */
  function DecodeCore(t: string): (r: Option<seq<byte>>)
    ensures r.Some? <==> |t| % 4 != 1 && AllStd(t)
    ensures r.Some? ==> |r.value| == 3 * (|t| / 4) + (if |t| % 4 == 0 then 0 else |t| % 4 - 1)
    decreases |t|
  {
    if |t| == 0 then Some([])
    else if |t| == 1 then
      assert !AllStd(t) || |t| % 4 == 1;
      None
    else if |t| <= 4 then DecodeGroup(t)
    else
      var head, rest := DecodeGroup(t[..4]), DecodeCore(t[4..]);
      AllStdSplit(t, 4);
      assert |t[4..]| / 4 == |t| / 4 - 1 && |t[4..]| % 4 == |t| % 4;
      if head.None? || rest.None? then None else Some(head.value + rest.value)
  }

  /** The `=` characters `btoa` appends: two after a final single byte, one after a final pair. */
  function Padding(r: nat): (p: string)
    ensures |p| == (if r == 1 then 2 else if r == 2 then 1 else 0)
    ensures forall i :: 0 <= i < |p| ==> p[i] == '='
  {
    if r == 1 then "==" else if r == 2 then "=" else ""
  }

  /** `btoa(String.fromCharCode(...bytes))`: padded standard base64. */
  function Btoa(b: seq<byte>): (s: string)
    ensures |s| % 4 == 0
  {
    EncodeCore(b) + Padding(|b| % 3)
  }

  /** `atob`, following the forgiving base64 decode: with a length that is a multiple of four, one
      or two final `=` are dropped; then whatever remains must be unpadded base64. */
  function Atob(s: string): (r: Option<seq<byte>>)
    ensures |s| % 4 != 0 ==> r == DecodeCore(s)
    ensures r.Some? ==> forall i :: 0 <= i < |s| && s[i] == '=' ==> |s| % 4 == 0 && i >= |s| - 2
  {
    var t :=
      if |s| % 4 == 0 && |s| >= 2 && s[|s| - 1] == '=' && s[|s| - 2] == '=' then s[..|s| - 2]
      else if |s| % 4 == 0 && |s| >= 1 && s[|s| - 1] == '=' then s[..|s| - 1]
      else s;
    DecodeCore(t)
  }

  /** `.replace(/\+/g, '-').replace(/\//g, '_')`. */
  function ToUrl(s: string): (r: string)
    ensures |r| == |s|
    ensures forall i :: 0 <= i < |s| ==> r[i] == if s[i] == '+' then '-' else if s[i] == '/' then '_' else s[i]
  {
    Text.ReplaceChar(Text.ReplaceChar(s, '+', '-'), '/', '_')
  }

  /** `.replace(/-/g, '+').replace(/_/g, '/')`. */
  function FromUrl(s: string): (r: string)
    ensures |r| == |s|
    ensures forall i :: 0 <= i < |s| ==> r[i] == if s[i] == '-' then '+' else if s[i] == '_' then '/' else s[i]
  {
    Text.ReplaceChar(Text.ReplaceChar(s, '-', '+'), '_', '/')
  }

  /** `.replace(/=+$/, '')`: drops every trailing `=`. */
  function StripTrailing(s: string): (r: string)
    ensures |r| <= |s| && r == s[..|r|]
    ensures |r| == 0 || r[|r| - 1] != '='
    ensures forall i :: |r| <= i < |s| ==> s[i] == '='
    decreases |s|
  {
    if |s| > 0 && s[|s| - 1] == '=' then
      var r := StripTrailing(s[..|s| - 1]);
      assert s[..|s| - 1][..|r|] == s[..|r|];
      r
    else s
  }

  /** `base64urlEncode`: the unpadded standard encoding written in the url alphabet, so no `+`,
      `/` or `=` (and no `.`), never one character more than a multiple of four, and
      `base64urlDecode` turns it back into the bytes. */
  function Encode(b: seq<byte>): (s: string)
    ensures s == ToUrl(EncodeCore(b))
    ensures |s| == 4 * (|b| / 3) + TailLength(|b| % 3) && |s| % 4 != 1
    ensures forall i :: 0 <= i < |s| ==> s[i] != '+' && s[i] != '/' && s[i] != '=' && s[i] != '.'
    ensures Decode(s) == Some(b)
  {
    UrlPaddingStripped(b);
    UrlAlphabet(EncodeCore(b));
    CoreLengthMod(|b|);
    UrlCoreRoundTrip(b);
    StripTrailing(ToUrl(Btoa(b)))
  }

  /** How many `=` `base64urlDecode` appends: `(4 - (length % 4)) % 4`. */
  function PadCount(n: nat): (k: nat)
    ensures k < 4 && (n + k) % 4 == 0
  {
    Js.Rem(4 - Js.Rem(n, 4), 4)
  }

  /** The string `base64urlDecode` hands to `atob`. */
  function Padded(str: string): (p: string)
    ensures |p| == |str| + PadCount(|str|) && |p| % 4 == 0
    ensures p[..|str|] == FromUrl(str)
    ensures forall i :: |str| <= i < |p| ==> p[i] == '='
  {
    Text.PadEnd(FromUrl(str), |str| + PadCount(|str|), '=')
  }

  /** `base64urlDecode`; `None` where `atob` throws. A text one character longer than a multiple
      of four, which `Encode` never writes, gets three `=` and `atob` rejects it. */
  function Decode(str: string): (r: Option<seq<byte>>)
    ensures |str| % 4 == 1 ==> r.None?
  {
    var p := Padded(str);
    assert |str| % 4 == 1 ==> Atob(p).None? by {
      if |str| % 4 == 1 {
        assert |p| == |str| + 3 && p[|p| - 1] == '=' && p[|p| - 2] == '=';
        var t := p[..|p| - 2];
        assert t[|t| - 1] == '=' && StdValue(t[|t| - 1]).None?;
      }
    }
    Atob(p)
  }

  /** A group of bytes decodes back from its characters. */
  lemma GroupRoundTrip(g: seq<byte>)
    requires 1 <= |g| <= 3
    ensures DecodeGroup(EncodeGroup(g)) == Some(g)
  {
    if |g| == 1 {
      OneRoundTrip(g[0]);
      assert g == [g[0]];
    } else if |g| == 2 {
      TwoRoundTrip(g[0], g[1]);
      assert g == [g[0], g[1]];
    } else {
      ThreeRoundTrip(g[0], g[1], g[2]);
      assert g == [g[0], g[1], g[2]];
    }
  }

  lemma OneRoundTrip(x: byte)
    ensures DecodeGroup(EncodeGroup([x])) == Some([x])
  {
    var v0, v1 := Sextet0(x), Sextet1(x, 0);
    assert v1 == (x as int % 4) * 16;
    assert Byte0(v0, v1) == x;
    var s := EncodeGroup([x]);
    assert s == [StdChar(v0), StdChar(v1)];
    assert StdValue(s[0]) == Some(v0) && StdValue(s[1]) == Some(v1);
  }

  lemma TwoRoundTrip(x: byte, y: byte)
    ensures DecodeGroup(EncodeGroup([x, y])) == Some([x, y])
  {
    JoinSplit(x, y, 0);
    var s := EncodeGroup([x, y]);
    assert StdValue(s[0]) == Some(Sextet0(x)) && StdValue(s[1]) == Some(Sextet1(x, y));
    assert StdValue(s[2]) == Some(Sextet2(y, 0));
  }

  lemma ThreeRoundTrip(x: byte, y: byte, z: byte)
    ensures DecodeGroup(EncodeGroup([x, y, z])) == Some([x, y, z])
  {
    JoinSplit(x, y, z);
    var s := EncodeGroup([x, y, z]);
    assert StdValue(s[0]) == Some(Sextet0(x)) && StdValue(s[1]) == Some(Sextet1(x, y));
    assert StdValue(s[2]) == Some(Sextet2(y, z)) && StdValue(s[3]) == Some(Sextet3(z));
  }

  /** Decoding the unpadded encoding gives the bytes back. */
  lemma {:induction false} CoreRoundTrip(b: seq<byte>)
    ensures DecodeCore(EncodeCore(b)) == Some(b)
    decreases |b|
  {
    if 1 <= |b| <= 3 {
      GroupRoundTrip(b);
      if |b| == 3 {
        assert b[..3] == b && EncodeCore(b[3..]) == "";
        assert EncodeCore(b) == EncodeGroup(b);
      }
    } else if |b| > 3 {
      var s := EncodeCore(b);
      var head := EncodeGroup(b[..3]);
      assert s[..4] == head && s[4..] == EncodeCore(b[3..]);
      GroupRoundTrip(b[..3]);
      CoreRoundTrip(b[3..]);
      assert b == b[..3] + b[3..];
    }
  }

  /** The unpadded length modulo four is the length of the final group. */
  lemma CoreLengthMod(n: nat)
    ensures (4 * (n / 3) + TailLength(n % 3)) % 4 == TailLength(n % 3)
    ensures PadCount(4 * (n / 3) + TailLength(n % 3)) == |Padding(n % 3)|
  {
    var t := TailLength(n % 3);
    assert (4 * (n / 3) + t) % 4 == t;
  }

  /** The url alphabet undoes cleanly on standard-alphabet text. */
  lemma {:induction false} UrlRoundTrip(core: string)
    requires forall i :: 0 <= i < |core| ==> StdValue(core[i]).Some?
    ensures FromUrl(ToUrl(core)) == core
  {
    var u := ToUrl(core);
    var r := FromUrl(u);
    forall i | 0 <= i < |core| ensures r[i] == core[i] {
      var c := core[i];
      assert StdValue(c).Some? && c != '-' && c != '_';
      assert u[i] == (if c == '+' then '-' else if c == '/' then '_' else c);
    }
  }

  /** Removing the padding of a text that does not end in `=` leaves exactly that text. */
  lemma {:induction false} StripPadding(x: string, p: string)
    requires |x| == 0 || x[|x| - 1] != '='
    requires forall i :: 0 <= i < |p| ==> p[i] == '='
    ensures StripTrailing(x + p) == x
    decreases |p|
  {
    if |p| > 0 {
      assert (x + p)[..|x + p| - 1] == x + p[..|p| - 1];
      StripPadding(x, p[..|p| - 1]);
    } else {
      assert x + p == x;
    }
  }

  /** Standard-alphabet text written in the url alphabet has no `+`, `/`, `=` or `.`. */
  lemma UrlAlphabet(core: string)
    requires AllStd(core)
    ensures var e := ToUrl(core); forall i :: 0 <= i < |e| ==> e[i] != '+' && e[i] != '/' && e[i] != '=' && e[i] != '.'
  {
    var e := ToUrl(core);
    forall i | 0 <= i < |e| ensures e[i] != '+' && e[i] != '/' && e[i] != '=' && e[i] != '.' {
      assert StdValue(core[i]).Some?;
    }
  }

  /** The string handed to `atob` is the standard encoding followed by `btoa`'s own padding. */
  lemma PaddedUrlCore(b: seq<byte>)
    ensures Padded(ToUrl(EncodeCore(b))) == Btoa(b)
  {
    var core := EncodeCore(b);
    UrlRoundTrip(core);
    var p := Padded(ToUrl(core));
    var pad := Padding(|b| % 3);
    CoreLengthMod(|b|);
    assert |p| == |core| + |pad|;
    forall i | 0 <= i < |p| ensures p[i] == (core + pad)[i] {
      if i < |core| {
        assert p[..|core|][i] == core[i];
      }
    }
  }

  /** Stripping the trailing `=` after the url replacements leaves the unpadded encoding in the
      url alphabet. */
  lemma UrlPaddingStripped(b: seq<byte>)
    ensures StripTrailing(ToUrl(Btoa(b))) == ToUrl(EncodeCore(b))
  {
    var core, pad := EncodeCore(b), Padding(|b| % 3);
    assert ToUrl(core + pad) == ToUrl(core) + pad;
    StripPadding(ToUrl(core), pad);
  }

  /** The unpadded encoding in the url alphabet decodes back to the bytes. */
  lemma UrlCoreRoundTrip(b: seq<byte>)
    ensures Decode(ToUrl(EncodeCore(b))) == Some(b)
  {
    PaddedUrlCore(b);
    AtobBtoa(b);
    CoreRoundTrip(b);
  }

  /** `atob` drops exactly `btoa`'s padding again. */
  lemma AtobBtoa(b: seq<byte>)
    ensures Atob(Btoa(b)) == DecodeCore(EncodeCore(b))
  {
    var core := EncodeCore(b);
    var pad := Padding(|b| % 3);
    var s := core + pad;
    assert |core| == 0 || StdValue(core[|core| - 1]).Some?;
    if |pad| == 2 {
      assert s[..|s| - 2] == core;
    } else if |pad| == 1 {
      assert s[..|s| - 1] == core;
    } else {
      assert s == core;
    }
  }
}
