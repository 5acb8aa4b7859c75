/** Identity keys: length-prefixed, domain-separated framing under a hash, and the hex form a digest is
    stored in. SHA-256 and HMAC are functions nothing is assumed about. */
module Keys {
  import opened Prelude
  import opened Bytes

  // ----- Framing ------------------------------------------------------------

  const KEY_DOMAIN: string := "velvt:abstraction-key:v1"
  const APP_KEY_DOMAIN: string := "velvt:abstraction-app-key:v1"
  const APP_BUNDLE_KEY_DOMAIN: string := "velvt:abstraction-app-bundle-key:v1"
  const SITE_KEY_DOMAIN: string := "velvt:abstraction-site-key:v1"
  const SALTED_KEY_DOMAIN: string := "velvt:abstraction-salted-key:v1"

  /** The four things a key can name, each field as its UTF-8 bytes. */
  datatype Identity =
    | Window(appName: bytes, windowTitle: bytes)
    | App(appName: bytes)
    | Bundle(bundleId: bytes)
    | Site(site: bytes)

  /** A length fits the eight bytes it is written in. */
  predicate Fits(value: bytes) { |value| < Pow256(8) }

  predicate Framable(id: Identity) {
    match id
    case Window(appName, windowTitle) => Fits(appName) && Fits(windowTitle)
    case App(appName) => Fits(appName)
    case Bundle(bundleId) => Fits(bundleId)
    case Site(site) => Fits(site)
  }

  function LengthPrefixed(value: bytes): bytes { BigEndian(|value|, 8) + value }

  function Domain(id: Identity): string {
    match id
    case Window(_, _) => KEY_DOMAIN
    case App(_) => APP_KEY_DOMAIN
    case Bundle(_) => APP_BUNDLE_KEY_DOMAIN
    case Site(_) => SITE_KEY_DOMAIN
  }

  function Fields(id: Identity): bytes {
    match id
    case Window(appName, windowTitle) => LengthPrefixed(appName) + LengthPrefixed(windowTitle)
    case App(appName) => LengthPrefixed(appName)
    case Bundle(bundleId) => LengthPrefixed(bundleId)
    case Site(site) => LengthPrefixed(site)
  }

  /** The byte string hashed for an identity. */
  function Framed(id: Identity): bytes { Ascii(Domain(id)) + Fields(id) }

  /** No domain begins another: they part at the nineteenth byte, or at the twenty-third. */
  lemma DomainsPart(id: Identity)
    ensures |Framed(id)| > 22
    ensures Framed(id)[18] == (if id.Window? then 'k' else if id.Site? then 's' else 'a') as int
    ensures id.App? ==> Framed(id)[22] == 'k' as int
    ensures id.Bundle? ==> Framed(id)[22] == 'b' as int
  {
    var d := Domain(id);
    assert Framed(id)[18] == d[18] as int && Framed(id)[22] == d[22] as int;
  }

  lemma PrefixedFieldsSplit(a: bytes, b: bytes, restA: bytes, restB: bytes)
    requires Fits(a) && Fits(b) && LengthPrefixed(a) + restA == LengthPrefixed(b) + restB
    ensures a == b && restA == restB
  {
    var s, t := LengthPrefixed(a) + restA, LengthPrefixed(b) + restB;
    assert s[..8] == BigEndian(|a|, 8) && t[..8] == BigEndian(|b|, 8);
    BigEndianInjective(|a|, |b|, 8);
    assert s[8..8 + |a|] == a && t[8..8 + |b|] == b;
    assert s[8 + |a|..] == restA && t[8 + |b|..] == restB;
  }

  lemma SameDomainFields(a: Identity, b: Identity)
    requires Framed(a) == Framed(b) && Domain(a) == Domain(b)
    ensures Fields(a) == Fields(b)
  {
    var n := |Domain(a)|;
    assert Framed(a)[n..] == Fields(a) && Framed(b)[n..] == Fields(b);
  }

  /** The hashed bytes name one identity: injective in every field, and never equal across domains. */
  lemma FramingIsInjective(a: Identity, b: Identity)
    requires Framable(a) && Framable(b)
    ensures Framed(a) == Framed(b) <==> a == b
  {
    if Framed(a) == Framed(b) {
      DomainsPart(a);
      DomainsPart(b);
      SameDomainFields(a, b);
      match a
      case Window(appName, windowTitle) =>
        PrefixedFieldsSplit(appName, b.appName, LengthPrefixed(windowTitle), LengthPrefixed(b.windowTitle));
        PrefixedFieldsSplit(windowTitle, b.windowTitle, [], []);
      case App(appName) => PrefixedFieldsSplit(appName, b.appName, [], []);
      case Bundle(bundleId) => PrefixedFieldsSplit(bundleId, b.bundleId, [], []);
      case Site(site) => PrefixedFieldsSplit(site, b.site, [], []);
    }
  }

  /** Where each field stands in the hashed bytes: after its domain, its length in eight bytes, most significant
      first, then its bytes; a window's name before its title. */
  lemma FramingLayout(id: Identity)
    ensures match id
      case Window(name, title) => Framed(id) ==
        Ascii("velvt:abstraction-key:v1") + BigEndian(|name|, 8) + name + BigEndian(|title|, 8) + title
      case App(name) => Framed(id) == Ascii("velvt:abstraction-app-key:v1") + BigEndian(|name|, 8) + name
      case Bundle(bundleId) => Framed(id) ==
        Ascii("velvt:abstraction-app-bundle-key:v1") + BigEndian(|bundleId|, 8) + bundleId
      case Site(site) => Framed(id) == Ascii("velvt:abstraction-site-key:v1") + BigEndian(|site|, 8) + site
  {
  }

  // ----- Hex ----------------------------------------------------------------

  function HexChar(nibble: int): byte
    requires 0 <= nibble < 16
  {
    if nibble < 10 then '0' as int + nibble else 'a' as int + nibble - 10
  }

  function Nibble(c: byte): Option<int> {
    if '0' as int <= c <= '9' as int then Some(c - '0' as int)
    else if 'a' as int <= c <= 'f' as int then Some(c - 'a' as int + 10)
    else None
  }

  function Hex(s: bytes): (r: bytes)
    ensures |r| == 2 * |s|
    ensures forall i :: 0 <= i < |s| ==> r[2 * i] == HexChar(s[i] / 16) && r[2 * i + 1] == HexChar(s[i] % 16)
  {
    if s == [] then []
    else Hex(s[..|s| - 1]) + [HexChar(s[|s| - 1] / 16), HexChar(s[|s| - 1] % 16)]
  }

  method EncodeHex(s: bytes) returns (encoded: bytes)
    ensures encoded == Hex(s)
  {
    encoded := [];
    for i := 0 to |s|
      invariant encoded == Hex(s[..i])
    {
      assert s[..i + 1][..i] == s[..i];
      encoded := encoded + [HexChar(s[i] / 16)];
      encoded := encoded + [HexChar(s[i] % 16)];
    }
    assert s[..|s|] == s;
  }

  /** Sixty-four lower-case hexadecimal characters. */
  predicate IsDigestText(encoded: bytes) {
    |encoded| == 64 && forall i :: 0 <= i < 64 ==> Nibble(encoded[i]).Some?
  }

  /** The inverse of the hex form, and only of it. */
  method DecodeDigest(encoded: bytes) returns (digest: Option<bytes>)
    ensures digest.Some? <==> IsDigestText(encoded)
    ensures digest.Some? ==> |digest.value| == 32 && Hex(digest.value) == encoded
  {
    if |encoded| != 64 {
      return None;
    }
    var decoded := new byte[32](_ => 0);
    for i := 0 to 32
      invariant forall j :: 0 <= j < i ==>
        Nibble(encoded[2 * j]) == Some(decoded[j] / 16) && Nibble(encoded[2 * j + 1]) == Some(decoded[j] % 16)
    {
      var high, low := Nibble(encoded[2 * i]), Nibble(encoded[2 * i + 1]);
      if high.None? || low.None? {
        return None;
      }
      decoded[i] := high.value * 16 + low.value;
    }
    var result: bytes := decoded[..];
    NibblesAreHex(encoded, result);
    return Some(result);
  }

  lemma NibbleOfHexChar(c: byte, nibble: int)
    requires 0 <= nibble < 16
    ensures Nibble(HexChar(nibble)) == Some(nibble)
    ensures Nibble(c) == Some(nibble) ==> c == HexChar(nibble)
  {
  }

  lemma {:induction false} NibblesAreHex(encoded: bytes, decoded: bytes)
    requires |encoded| == 64 && |decoded| == 32
    requires forall j :: 0 <= j < 32 ==>
      Nibble(encoded[2 * j]) == Some(decoded[j] / 16) && Nibble(encoded[2 * j + 1]) == Some(decoded[j] % 16)
    ensures Hex(decoded) == encoded && IsDigestText(encoded)
  {
    forall i | 0 <= i < 64 ensures Hex(decoded)[i] == encoded[i] && Nibble(encoded[i]).Some? {
      var j := i / 2;
      assert i == 2 * j || i == 2 * j + 1;
      NibbleOfHexChar(encoded[2 * j], decoded[j] / 16);
      NibbleOfHexChar(encoded[2 * j + 1], decoded[j] % 16);
    }
  }

  /** The hex form of a digest is digest text, and no two byte strings share one. */
  lemma {:induction false} HexRoundTrip(a: bytes, b: bytes)
    ensures |a| == 32 ==> IsDigestText(Hex(a))
    ensures Hex(a) == Hex(b) <==> a == b
  {
    if |a| == 32 {
      forall i | 0 <= i < 64 ensures Nibble(Hex(a)[i]).Some? {
        var j := i / 2;
        assert i == 2 * j || i == 2 * j + 1;
        NibbleOfHexChar(0, a[j] / 16);
        NibbleOfHexChar(0, a[j] % 16);
      }
    }
    if Hex(a) == Hex(b) {
      assert |a| == |b|;
      forall i | 0 <= i < |a| ensures a[i] == b[i] {
        assert Hex(a)[2 * i] == Hex(b)[2 * i] && Hex(a)[2 * i + 1] == Hex(b)[2 * i + 1];
        NibbleOfHexChar(0, a[i] / 16);
        NibbleOfHexChar(0, a[i] % 16);
        NibbleOfHexChar(0, b[i] / 16);
        NibbleOfHexChar(0, b[i] % 16);
      }
    }
  }

  // ----- Keys ---------------------------------------------------------------

  /** The hash functions, known only by the length of what they return. */
  datatype Hashes = Hashes(sha: bytes -> bytes, hmac: (bytes, bytes) -> bytes)

  ghost predicate Sized(h: Hashes) {
    && (forall s :: |h.sha(s)| == 32)
    && (forall key, s :: |h.hmac(key, s)| == 32)
  }

  class Hasher {
    var fed: bytes

    constructor ()
      ensures fed == []
    {
      fed := [];
    }

    method Update(data: bytes)
      modifies this
      ensures fed == old(fed) + data
    {
      fed := fed + data;
    }

    method UpdateLengthPrefixed(value: bytes)
      modifies this
      ensures fed == old(fed) + LengthPrefixed(value)
    {
      Update(BigEndian(|value|, 8));
      Update(value);
    }
  }

  lemma FedInTurn(x: bytes, y: bytes, z: bytes)
    ensures [] + x + y + z == x + (y + z) && [] + x + y == x + y
  {
  }

  method Digest(h: Hashes, id: Identity) returns (digest: bytes)
    ensures digest == h.sha(Framed(id))
  {
    var hasher := new Hasher();
    match id {
      case Window(appName, windowTitle) =>
        hasher.Update(Ascii(KEY_DOMAIN));
        hasher.UpdateLengthPrefixed(appName);
        hasher.UpdateLengthPrefixed(windowTitle);
        FedInTurn(Ascii(KEY_DOMAIN), LengthPrefixed(appName), LengthPrefixed(windowTitle));
      case App(appName) =>
        hasher.Update(Ascii(APP_KEY_DOMAIN));
        hasher.UpdateLengthPrefixed(appName);
        FedInTurn(Ascii(APP_KEY_DOMAIN), LengthPrefixed(appName), []);
      case Bundle(bundleId) =>
        hasher.Update(Ascii(APP_BUNDLE_KEY_DOMAIN));
        hasher.UpdateLengthPrefixed(bundleId);
        FedInTurn(Ascii(APP_BUNDLE_KEY_DOMAIN), LengthPrefixed(bundleId), []);
      case Site(site) =>
        hasher.Update(Ascii(SITE_KEY_DOMAIN));
        hasher.UpdateLengthPrefixed(site);
        FedInTurn(Ascii(SITE_KEY_DOMAIN), LengthPrefixed(site), []);
    }
    digest := h.sha(hasher.fed);
  }

  /** One digest, keyed to an install. */
  function Key(h: Hashes, salt: bytes, digest: bytes): bytes {
    Hex(h.hmac(salt, Ascii(SALTED_KEY_DOMAIN) + digest))
  }

  function StableKey(h: Hashes, salt: bytes, id: Identity): bytes {
    Key(h, salt, h.sha(Framed(id)))
  }

  /** The salted form of a stored digest; nothing for text of any other shape. */
  method RekeyStoredDigest(h: Hashes, salt: bytes, stored: bytes) returns (key: Option<bytes>)
    ensures key.Some? <==> IsDigestText(stored)
    ensures forall digest :: Hex(digest) == stored && |digest| == 32 ==> key == Some(Key(h, salt, digest))
  {
    var digest := DecodeDigest(stored);
    if digest.None? {
      forall d | Hex(d) == stored && |d| == 32 ensures false {
        HexRoundTrip(d, d);
      }
      return None;
    }
    forall d | Hex(d) == stored && |d| == 32 ensures d == digest.value {
      HexRoundTrip(d, digest.value);
    }
    key := Some(Key(h, salt, digest.value));
  }

  /** Re-keying what an identity's digest was stored as gives the key of the identity itself. */
  method RekeyIdentity(h: Hashes, salt: bytes, id: Identity) returns (stored: bytes, key: Option<bytes>)
    requires Sized(h)
    ensures stored == Hex(h.sha(Framed(id)))
    ensures key == Some(StableKey(h, salt, id))
  {
    var digest := Digest(h, id);
    stored := EncodeHex(digest);
    key := RekeyStoredDigest(h, salt, stored);
  }

  /** What the install's hash is fed for an identity. */
  function Message(h: Hashes, id: Identity): bytes { Ascii(SALTED_KEY_DOMAIN) + h.sha(Framed(id)) }

  /** Two identities whose hashed strings do not collide share a key only by being the same. */
  lemma KeysNameIdentities(h: Hashes, salt: bytes, a: Identity, b: Identity)
    requires Framable(a) && Framable(b)
    requires h.sha(Framed(a)) == h.sha(Framed(b)) ==> Framed(a) == Framed(b)
    requires h.hmac(salt, Message(h, a)) == h.hmac(salt, Message(h, b)) ==> Message(h, a) == Message(h, b)
    ensures StableKey(h, salt, a) == StableKey(h, salt, b) <==> a == b
  {
    var d := Ascii(SALTED_KEY_DOMAIN);
    var x, y := h.sha(Framed(a)), h.sha(Framed(b));
    HexRoundTrip(h.hmac(salt, d + x), h.hmac(salt, d + y));
    if d + x == d + y {
      assert (d + x)[|d|..] == x && (d + y)[|d|..] == y;
    }
    FramingIsInjective(a, b);
  }

  /** A stored key is the hex of the install's HMAC over the salting domain and the digest. */
  lemma KeyLayout(h: Hashes, salt: bytes, id: Identity)
    ensures StableKey(h, salt, id) == Hex(h.hmac(salt, Ascii("velvt:abstraction-salted-key:v1") + h.sha(Framed(id))))
  {
  }

  /** A byte is two hex digits, the high one first, 0-9 then a-f. */
  lemma {:induction false} HexDigits(s: bytes, i: nat)
    requires i < |s|
    ensures var digits := Ascii("0123456789abcdef");
      Hex(s)[2 * i] == digits[s[i] / 16] && Hex(s)[2 * i + 1] == digits[s[i] % 16]
  {
    HexDigit(s[i] / 16);
    HexDigit(s[i] % 16);
  }

  lemma HexDigit(nibble: int)
    requires 0 <= nibble < 16
    ensures HexChar(nibble) == Ascii("0123456789abcdef")[nibble]
  {
    var digits := "0123456789abcdef";
    assert digits[nibble] as int == HexChar(nibble);
  }
}
