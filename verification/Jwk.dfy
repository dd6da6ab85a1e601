/** jwk/key.go and jwk/decode.go: published keys and the map a JSON Web Key Set decodes to. */
module Jwk {
  import opened Text
  import opened Options

  type Byte = b: nat | b < 256

  datatype Key = Key(
    kty: string, use: string, kid: string, alg: string, crv: string, x: string, y: string, n: string, e: string)

  datatype PublicKey = Ed25519(raw: seq<Byte>) | RSA(modulus: nat, exponent: nat) | P256(px: seq<Byte>, py: seq<Byte>)

  datatype DecodedKey = DecodedKey(publicKey: PublicKey, declaredAlg: string)
  {
    /** The key, unless it is declared for a different algorithm than the one asked for. */
    function ForAlgorithm(alg: string): Option<PublicKey> {
      if declaredAlg != "" && alg != "" && declaredAlg != alg then None else Some(publicKey)
    }
  }

  /** The library code decoding relies on: unpadded base64url and the P-256 curve check. */
  datatype Codec = Codec(base64: string -> Option<seq<Byte>>, onCurve: (seq<Byte>, seq<Byte>) -> bool)
  {
    /** decodeBase64URL: blank input and empty output are errors. */
    function Bytes(value: string): Option<seq<Byte>> {
      if value == "" then None
      else
        match base64(value)
        case None => None
        case Some(raw) => if |raw| == 0 then None else Some(raw)
    }
  }

  /* ---------- RSA exponents ---------- */

  const UINT64: nat := 0x1_0000_0000_0000_0000
  const MAX_INT: nat := 0x7fff_ffff_ffff_ffff

  /** The big-endian value of a byte string. */
  function BigEndian(bytes: seq<Byte>): nat {
    if bytes == [] then 0 else BigEndian(bytes[..|bytes| - 1]) * 256 + bytes[|bytes| - 1]
  }

  /** `e << 8 | b` on uint64: the top byte is lost, the low byte is free. */
  function ShiftIn(e: nat, b: Byte): nat {
    e * 256 % UINT64 + b
  }

  function Power256(n: nat): nat {
    if n == 0 then 1 else 256 * Power256(n - 1)
  }

  lemma {:induction false} BigEndianBound(bytes: seq<Byte>)
    ensures BigEndian(bytes) < Power256(|bytes|)
  {
    if bytes != [] {
      BigEndianBound(bytes[..|bytes| - 1]);
    }
  }

  lemma {:induction false} Power256Monotone(m: nat, n: nat)
    requires m <= n
    ensures 0 < Power256(m) <= Power256(n)
  {
    if m < n {
      Power256Monotone(m, n - 1);
    } else if m > 0 {
      Power256Monotone(m - 1, n - 1);
    }
  }

  lemma Power256Eight()
    ensures Power256(7) * 256 == UINT64
  {
    assert Power256(1) == 256;
    assert Power256(2) == 256 * Power256(1);
    assert Power256(3) == 256 * Power256(2);
    assert Power256(4) == 256 * Power256(3);
    assert Power256(5) == 256 * Power256(4);
    assert Power256(6) == 256 * Power256(5);
    assert Power256(7) == 256 * Power256(6);
  }

  /** An exponent is accepted if its encoding has at most eight bytes and its value is odd, at least three,
      and fits a signed 64-bit int. */
  predicate AcceptableExponent(bytes: seq<Byte>) {
    |bytes| <= 8 && 3 <= BigEndian(bytes) <= MAX_INT && BigEndian(bytes) % 2 == 1
  }

  /** The shifting loop never overflows, so the exponent is the big-endian value of its bytes. */
  method DecodeExponent(bytes: seq<Byte>) returns (exponent: Option<nat>)
    ensures exponent == if AcceptableExponent(bytes) then Some(BigEndian(bytes)) else None
  {
    if |bytes| > 8 {
      return None;
    }
    var e := 0;
    for i := 0 to |bytes|
      invariant e == BigEndian(bytes[..i])
    {
      BigEndianBound(bytes[..i]);
      Power256Monotone(i, 7);
      Power256Eight();
      assert e * 256 < UINT64;
      assert bytes[..i + 1][..i] == bytes[..i];
      e := ShiftIn(e, bytes[i]);
    }
    assert bytes[..|bytes|] == bytes;
    if e > MAX_INT {
      return None;
    }
    if e < 3 || e % 2 == 0 {
      return None;
    }
    return Some(e);
  }

  /* ---------- One key ---------- */

  function DecodeRSA(codec: Codec, k: Key): Option<PublicKey> {
    match codec.Bytes(k.n)
    case None => None
    case Some(n) =>
      if BigEndian(n) <= 1 || BigEndian(n) % 2 == 0 then None
      else
        match codec.Bytes(k.e)
        case None => None
        case Some(e) => if AcceptableExponent(e) then Some(RSA(BigEndian(n), BigEndian(e))) else None
  }

  function DecodePublicKey(codec: Codec, k: Key): Option<PublicKey> {
    if k.kty == "OKP" then
      if k.crv != "Ed25519" || codec.Bytes(k.x).None? || |codec.Bytes(k.x).value| != 32 then None
      else Some(Ed25519(codec.Bytes(k.x).value))
    else if k.kty == "RSA" then DecodeRSA(codec, k)
    else if k.kty == "EC" then
      if k.crv != "P-256" || codec.Bytes(k.x).None? || codec.Bytes(k.y).None? then None
      else
        var x, y := codec.Bytes(k.x).value, codec.Bytes(k.y).value;
        if |x| != 32 || |y| != 32 || !codec.onCurve(x, y) then None else Some(P256(x, y))
    else None
  }

  predicate IsRSAAlgorithm(alg: string) {
    alg in {"RS256", "RS384", "RS512", "PS256", "PS384", "PS512"}
  }

  /** validateDeclaredAlgorithm returns nil. */
  predicate CompatibleAlgorithm(k: Key) {
    || k.alg == ""
    || (k.kty == "OKP" && k.crv == "Ed25519" && k.alg == "EdDSA")
    || (k.kty == "RSA" && IsRSAAlgorithm(k.alg))
    || (k.kty == "EC" && k.crv == "P-256" && k.alg == "ES256")
  }

  /** A key that would be accepted on its own. */
  predicate Acceptable(codec: Codec, k: Key) {
    && Trim(k.kid) != ""
    && (k.use == "" || k.use == "sig")
    && CompatibleAlgorithm(k)
    && DecodePublicKey(codec, k).Some?
  }

  function Entry(codec: Codec, k: Key): DecodedKey
    requires Acceptable(codec, k)
  {
    DecodedKey(DecodePublicKey(codec, k).value, k.alg)
  }

  /* ---------- What a published key stands for ---------- */

  /** The big-endian bytes of a number, without leading zeros. */
  function ToBytes(n: nat): seq<Byte> {
    if n == 0 then [] else ToBytes(n / 256) + [n % 256]
  }

  function Zeros(n: nat): seq<Byte> {
    seq(n, _ => 0)
  }

  lemma {:induction false} ToBytesValue(n: nat)
    ensures BigEndian(ToBytes(n)) == n
  {
    if n > 0 {
      ToBytesValue(n / 256);
      var init := ToBytes(n / 256);
      assert (init + [n % 256])[..|init|] == init;
    }
  }

  lemma {:induction false} ZerosValue(z: nat, bytes: seq<Byte>)
    ensures BigEndian(Zeros(z) + bytes) == BigEndian(bytes)
  {
    if bytes != [] {
      var init, last := bytes[..|bytes| - 1], bytes[|bytes| - 1];
      ZerosValue(z, init);
      assert (Zeros(z) + bytes)[..z + |init|] == Zeros(z) + init;
    } else if z > 0 {
      ZerosValue(z - 1, []);
      assert (Zeros(z) + [])[..z - 1] == Zeros(z - 1) + [];
    } else {
      assert Zeros(0) + bytes == bytes;
    }
  }

  /** The bytes of a number are its shortest encoding after some zeros. */
  predicate Encodes(bytes: seq<Byte>, n: nat) {
    |ToBytes(n)| <= |bytes| && bytes == Zeros(|bytes| - |ToBytes(n)|) + ToBytes(n)
  }

  lemma {:induction false} EncodesExactly(bytes: seq<Byte>, n: nat)
    ensures Encodes(bytes, n) <==> BigEndian(bytes) == n
  {
    if Encodes(bytes, n) {
      ZerosValue(|bytes| - |ToBytes(n)|, ToBytes(n));
      ToBytesValue(n);
    }
    if BigEndian(bytes) == n {
      ValueEncoded(bytes);
    }
  }

  lemma {:induction false} ValueEncoded(bytes: seq<Byte>)
    ensures Encodes(bytes, BigEndian(bytes))
  {
    var n := BigEndian(bytes);
    if bytes != [] {
      var init, last := bytes[..|bytes| - 1], bytes[|bytes| - 1];
      ValueEncoded(init);
      assert bytes == init + [last];
      if n == 0 {
        assert Zeros(|init|) + [] == init;
        assert Zeros(|bytes|) == Zeros(|init|) + [0];
      } else {
        assert n / 256 == BigEndian(init) && n % 256 == last;
        assert ToBytes(n) == ToBytes(BigEndian(init)) + [last];
      }
    }
  }

  /** A field of a key holds these bytes in base64url. */
  predicate Holds(codec: Codec, field: string, bytes: seq<Byte>) {
    field != "" && bytes != [] && codec.base64(field) == Some(bytes)
  }

  predicate HoldsNumber(codec: Codec, field: string, n: nat) {
    match codec.base64(field)
    case None => false
    case Some(bytes) => Holds(codec, field, bytes) && Encodes(bytes, n)
  }

  /** The key a published entry stands for, told from the key: which fields hold which of its parts. */
  predicate StandsFor(codec: Codec, k: Key, v: PublicKey) {
    match v
    case Ed25519(raw) => k.kty == "OKP" && k.crv == "Ed25519" && |raw| == 32 && Holds(codec, k.x, raw)
    case RSA(m, e) =>
      && k.kty == "RSA" && m > 1 && m % 2 == 1 && 3 <= e <= MAX_INT && e % 2 == 1
      && HoldsNumber(codec, k.n, m) && HoldsNumber(codec, k.e, e) && |codec.base64(k.e).value| <= 8
    case P256(px, py) =>
      && k.kty == "EC" && k.crv == "P-256" && |px| == |py| == 32 && codec.onCurve(px, py)
      && Holds(codec, k.x, px) && Holds(codec, k.y, py)
  }

  lemma HoldsExactly(codec: Codec, field: string, bytes: seq<Byte>)
    ensures codec.Bytes(field) == Some(bytes) <==> Holds(codec, field, bytes)
  {}

  lemma NumberExactly(codec: Codec, field: string, n: nat)
    ensures HoldsNumber(codec, field, n) <==>
              codec.Bytes(field).Some? && BigEndian(codec.Bytes(field).value) == n
    ensures HoldsNumber(codec, field, n) ==> codec.base64(field) == codec.Bytes(field)
  {
    if codec.base64(field).Some? {
      EncodesExactly(codec.base64(field).value, n);
    }
  }

  /** Decoding succeeds exactly for the entries that stand for some key, and yields that key. */
  lemma DecodesExactly(codec: Codec, k: Key, v: PublicKey)
    ensures DecodePublicKey(codec, k) == Some(v) <==> StandsFor(codec, k, v)
  {
    match v
    case Ed25519(raw) => HoldsExactly(codec, k.x, raw);
    case RSA(m, e) => RSAExactly(codec, k, m, e);
    case P256(px, py) =>
      HoldsExactly(codec, k.x, px);
      HoldsExactly(codec, k.y, py);
  }

  lemma RSAExactly(codec: Codec, k: Key, m: nat, e: nat)
    ensures DecodePublicKey(codec, k) == Some(RSA(m, e)) <==> StandsFor(codec, k, RSA(m, e))
  {
    NumberExactly(codec, k.n, m);
    NumberExactly(codec, k.e, e);
  }

  /** An RSA key published with the shortest encodings of its numbers is decoded to itself. */
  lemma RSARoundTrip(codec: Codec, k: Key, m: nat, e: nat)
    requires k.kty == "RSA" && m > 1 && m % 2 == 1 && 3 <= e <= MAX_INT && e % 2 == 1
    requires codec.Bytes(k.n) == Some(ToBytes(m)) && codec.Bytes(k.e) == Some(ToBytes(e))
    ensures DecodePublicKey(codec, k) == Some(RSA(m, e))
  {
    ToBytesValue(m);
    ToBytesValue(e);
    ToBytesShort(e, 8);
  }

  lemma {:induction false} ToBytesShort(n: nat, k: nat)
    requires n < Power256(k)
    ensures |ToBytes(n)| <= k
  {
    if n > 0 {
      ToBytesShort(n / 256, k - 1);
    }
  }

  /* ---------- Key sets ---------- */

  datatype SetError = NoKeys | WithoutKid | DuplicateKid | UnsupportedUse | IncompatibleAlgorithm | UndecodableKey

  datatype SetResult = Keys(keys: map<string, DecodedKey>) | Rejected(error: SetError)

  /** Why `k` cannot be added to the keys decoded so far. */
  function Objection(codec: Codec, keys: map<string, DecodedKey>, k: Key): Option<SetError> {
    if Trim(k.kid) == "" then Some(WithoutKid)
    else if k.kid in keys then Some(DuplicateKid)
    else if k.use != "" && k.use != "sig" then Some(UnsupportedUse)
    else if !CompatibleAlgorithm(k) then Some(IncompatibleAlgorithm)
    else if DecodePublicKey(codec, k).None? then Some(UndecodableKey)
    else None
  }

  /** The keys of a prefix, or the objection to its first unacceptable key. */
  function DecodePrefix(codec: Codec, jwks: seq<Key>): SetResult {
    if jwks == [] then Keys(map[])
    else
      var last := jwks[|jwks| - 1];
      match DecodePrefix(codec, jwks[..|jwks| - 1])
      case Rejected(e) => Rejected(e)
      case Keys(keys) =>
        match Objection(codec, keys, last)
        case Some(e) => Rejected(e)
        case None => Keys(keys[last.kid := Entry(codec, last)])
  }

  function DecodeSet(codec: Codec, jwks: seq<Key>): SetResult {
    if |jwks| == 0 then Rejected(NoKeys) else DecodePrefix(codec, jwks)
  }

  method DecodeKeySet(codec: Codec, jwks: seq<Key>) returns (r: SetResult)
    ensures r == DecodeSet(codec, jwks)
  {
    if |jwks| == 0 {
      return Rejected(NoKeys);
    }
    var keys: map<string, DecodedKey> := map[];
    for i := 0 to |jwks|
      invariant DecodePrefix(codec, jwks[..i]) == Keys(keys)
    {
      var item := jwks[i];
      assert jwks[..i + 1][..i] == jwks[..i];
      var objection := Objection(codec, keys, item);
      if objection.Some? {
        RejectionStays(codec, jwks, i + 1);
        return Rejected(objection.value);
      }
      keys := keys[item.kid := Entry(codec, item)];
    }
    assert jwks[..|jwks|] == jwks;
    return Keys(keys);
  }

  lemma {:induction false} RejectionStays(codec: Codec, jwks: seq<Key>, n: nat)
    requires n <= |jwks| && DecodePrefix(codec, jwks[..n]).Rejected?
    ensures DecodePrefix(codec, jwks) == DecodePrefix(codec, jwks[..n])
    decreases |jwks| - n
  {
    if n == |jwks| {
      assert jwks[..n] == jwks;
    } else {
      assert jwks[..n + 1][..n] == jwks[..n];
      RejectionStays(codec, jwks, n + 1);
    }
  }

  /* ---------- What a decoded set is ---------- */

  function Kids(jwks: seq<Key>): set<string> {
    set k | k in jwks :: k.kid
  }

  predicate DistinctKids(jwks: seq<Key>) {
    forall i, j | 0 <= i < j < |jwks| :: jwks[i].kid != jwks[j].kid
  }

  /** Kids are distinct when there are as many of them as keys. */
  lemma {:induction false} KidsCount(jwks: seq<Key>)
    ensures |Kids(jwks)| <= |jwks|
    ensures |Kids(jwks)| == |jwks| <==> DistinctKids(jwks)
  {
    if jwks != [] {
      var init, last := jwks[..|jwks| - 1], jwks[|jwks| - 1];
      assert jwks == init + [last];
      KidsCount(init);
      DistinctInit(init, last);
      assert Kids(jwks) == Kids(init) + {last.kid};
    }
  }

  /** Which keys are acceptable on their own, and what each is stored as. */
  function Accepts(codec: Codec): Key -> bool {
    (k: Key) => Acceptable(codec, k)
  }

  function Stores(codec: Codec): Key -> Option<DecodedKey> {
    (k: Key) => if Acceptable(codec, k) then Some(Entry(codec, k)) else None
  }

  lemma ObjectionMeaning(codec: Codec, keys: map<string, DecodedKey>, k: Key)
    ensures Objection(codec, keys, k).None? <==> Accepts(codec)(k) && k.kid !in keys
  {}

  /** `keys` has exactly one entry for every key of the set, under its kid. */
  ghost predicate Indexes(stores: Key -> Option<DecodedKey>, keys: map<string, DecodedKey>, jwks: seq<Key>) {
    keys.Keys == Kids(jwks) && forall k | k in jwks :: stores(k) == Some(keys[k.kid])
  }

  lemma IndexExtended(stores: Key -> Option<DecodedKey>, keys: map<string, DecodedKey>, init: seq<Key>, last: Key)
    requires Indexes(stores, keys, init) && last.kid !in keys && stores(last).Some?
    ensures Indexes(stores, keys[last.kid := stores(last).value], init + [last])
  {
    assert Kids(init + [last]) == Kids(init) + {last.kid};
  }

  lemma {:induction false} PrefixMeaning(codec: Codec, jwks: seq<Key>)
    ensures DecodePrefix(codec, jwks).Keys? <==> (forall k | k in jwks :: Accepts(codec)(k)) && DistinctKids(jwks)
    ensures DecodePrefix(codec, jwks).Keys? ==> Indexes(Stores(codec), DecodePrefix(codec, jwks).keys, jwks)
  {
    if jwks != [] {
      var init, last := jwks[..|jwks| - 1], jwks[|jwks| - 1];
      assert jwks == init + [last];
      PrefixMeaning(codec, init);
      DistinctInit(init, last);
      if DecodePrefix(codec, init).Keys? {
        var keys := DecodePrefix(codec, init).keys;
        ObjectionMeaning(codec, keys, last);
        if Objection(codec, keys, last).None? {
          IndexExtended(Stores(codec), keys, init, last);
        }
      }
    }
  }

  lemma DistinctInit(init: seq<Key>, last: Key)
    ensures DistinctKids(init + [last]) <==> DistinctKids(init) && last.kid !in Kids(init)
  {
    var all := init + [last];
    assert forall i | 0 <= i < |init| :: all[i] == init[i];
    if last.kid in Kids(init) {
      var i :| 0 <= i < |init| && init[i].kid == last.kid;
      assert all[i].kid == all[|init|].kid;
    }
  }

  /** The algorithms a key can verify signatures of. */
  function AlgorithmsOf(v: PublicKey): set<string> {
    match v
    case Ed25519(_) => {"EdDSA"}
    case RSA(_, _) => {"RS256", "RS384", "RS512", "PS256", "PS384", "PS512"}
    case P256(_, _) => {"ES256"}
  }

  /** A named signing entry that stands for the key `v` and declares no algorithm the key is not for. */
  predicate UsableAs(codec: Codec, k: Key, v: PublicKey) {
    !Blank(k.kid) && k.use in {"", "sig"} && StandsFor(codec, k, v) && (k.alg == "" || k.alg in AlgorithmsOf(v))
  }

  ghost predicate Usable(codec: Codec, k: Key) {
    exists v :: UsableAs(codec, k, v)
  }

  /** A key is accepted exactly when it is usable, and is stored as what it stands for. */
  lemma AcceptableExactly(codec: Codec, k: Key)
    ensures Acceptable(codec, k) <==> Usable(codec, k)
    ensures Acceptable(codec, k) ==>
              UsableAs(codec, k, Entry(codec, k).publicKey) && Entry(codec, k).declaredAlg == k.alg
  {
    TrimIdempotent(k.kid);
    forall v ensures DecodePublicKey(codec, k) == Some(v) <==> StandsFor(codec, k, v) {
      DecodesExactly(codec, k, v);
    }
    if DecodePublicKey(codec, k).Some? {
      var v := DecodePublicKey(codec, k).value;
      CompatibleExactly(codec, k, v);
      assert Acceptable(codec, k) <==> UsableAs(codec, k, v);
    }
  }

  lemma CompatibleExactly(codec: Codec, k: Key, v: PublicKey)
    requires DecodePublicKey(codec, k) == Some(v)
    ensures CompatibleAlgorithm(k) <==> k.alg == "" || k.alg in AlgorithmsOf(v)
  {}

  /** What the entry of a kid is, without the decoder. */
  ghost predicate StoredFor(codec: Codec, k: Key, entry: DecodedKey) {
    UsableAs(codec, k, entry.publicKey) && entry.declaredAlg == k.alg
  }

  /** A set decodes exactly when it is nonempty, every entry is usable on its own and no two share a kid;
      the result then holds under each kid the key its entry stands for with its own algorithm, and nothing else. */
  lemma SetMeaning(codec: Codec, jwks: seq<Key>)
    ensures DecodeSet(codec, jwks).Keys? <==>
              jwks != [] && (forall k | k in jwks :: Usable(codec, k)) && DistinctKids(jwks)
    ensures DecodeSet(codec, jwks).Keys? ==>
              var keys := DecodeSet(codec, jwks).keys;
              keys.Keys == Kids(jwks) && forall k | k in jwks :: StoredFor(codec, k, keys[k.kid])
  {
    PrefixMeaning(codec, jwks);
    forall k | k in jwks ensures Accepts(codec)(k) <==> Usable(codec, k) {
      AcceptableExactly(codec, k);
    }
    if DecodeSet(codec, jwks).Keys? {
      var keys := DecodeSet(codec, jwks).keys;
      forall k | k in jwks ensures StoredFor(codec, k, keys[k.kid]) {
        assert Stores(codec)(k) == Some(keys[k.kid]);
        AcceptableExactly(codec, k);
      }
    }
  }

  /** What is wrong with the i-th entry of a set. */
  ghost predicate Cause(codec: Codec, jwks: seq<Key>, i: nat, e: SetError)
    requires i < |jwks|
  {
    var k := jwks[i];
    match e
    case NoKeys => false
    case WithoutKid => Blank(k.kid)
    case DuplicateKid => exists j: nat :: j < i && jwks[j].kid == k.kid
    case UnsupportedUse => k.use !in {"", "sig"}
    case IncompatibleAlgorithm => k.alg != "" && forall v :: StandsFor(codec, k, v) ==> k.alg !in AlgorithmsOf(v)
    case UndecodableKey => forall v :: !StandsFor(codec, k, v)
  }

  lemma ObjectionCause(codec: Codec, keys: map<string, DecodedKey>, jwks: seq<Key>, i: nat)
    requires i < |jwks| && keys.Keys == Kids(jwks[..i]) && Objection(codec, keys, jwks[i]).Some?
    ensures Cause(codec, jwks, i, Objection(codec, keys, jwks[i]).value)
  {
    var k := jwks[i];
    TrimIdempotent(k.kid);
    forall v ensures DecodePublicKey(codec, k) == Some(v) <==> StandsFor(codec, k, v) {
      DecodesExactly(codec, k, v);
    }
    if DecodePublicKey(codec, k).Some? {
      CompatibleExactly(codec, k, DecodePublicKey(codec, k).value);
    }
    if k.kid in keys {
      var j: nat :| j < i && jwks[..i][j].kid == k.kid;
      assert jwks[j].kid == k.kid;
    }
  }

  /** A rejection names what is wrong with the first entry that cannot be taken. */
  lemma {:induction false} RejectionCause(codec: Codec, jwks: seq<Key>) returns (i: nat)
    requires DecodePrefix(codec, jwks).Rejected?
    ensures i < |jwks| && Cause(codec, jwks, i, DecodePrefix(codec, jwks).error)
    ensures (forall k | k in jwks[..i] :: Usable(codec, k)) && DistinctKids(jwks[..i])
  {
    var init := jwks[..|jwks| - 1];
    assert jwks == init + [jwks[|jwks| - 1]];
    if DecodePrefix(codec, init).Rejected? {
      i := RejectionCause(codec, init);
      assert init[..i] == jwks[..i];
      CauseInPrefix(codec, init, jwks, i, DecodePrefix(codec, init).error);
    } else {
      i := |jwks| - 1;
      PrefixMeaning(codec, init);
      ObjectionCause(codec, DecodePrefix(codec, init).keys, jwks, i);
      forall k | k in init ensures Usable(codec, k) {
        assert Accepts(codec)(k);
        AcceptableExactly(codec, k);
      }
    }
  }

  lemma CauseInPrefix(codec: Codec, init: seq<Key>, jwks: seq<Key>, i: nat, e: SetError)
    requires i < |init| <= |jwks| && init == jwks[..|init|] && Cause(codec, init, i, e)
    ensures Cause(codec, jwks, i, e)
  {
    forall j: nat | j < |init| ensures init[j] == jwks[j] {}
  }

  /** The order of a set's keys matters neither to whether it decodes nor to what it decodes to. */
  lemma OrderIrrelevant(codec: Codec, a: seq<Key>, b: seq<Key>)
    requires multiset(a) == multiset(b)
    ensures DecodeSet(codec, a).Keys? <==> DecodeSet(codec, b).Keys?
    ensures DecodeSet(codec, a).Keys? ==> DecodeSet(codec, a) == DecodeSet(codec, b)
  {
    PrefixMeaning(codec, a);
    PrefixMeaning(codec, b);
    SameMembers(a, b);
    KidsCount(a);
    KidsCount(b);
    if DecodeSet(codec, a).Keys? {
      SameIndex(Stores(codec), DecodeSet(codec, a).keys, a, DecodeSet(codec, b).keys, b);
    }
  }

  lemma SameMembers(a: seq<Key>, b: seq<Key>)
    requires multiset(a) == multiset(b)
    ensures |a| == |b| && Kids(a) == Kids(b) && forall k :: k in a <==> k in b
  {
    assert |multiset(a)| == |a| && |multiset(b)| == |b|;
    forall k ensures k in a <==> k in b {
      assert k in a <==> k in multiset(a);
      assert k in b <==> k in multiset(b);
    }
  }

  lemma SameIndex(
    stores: Key -> Option<DecodedKey>, m: map<string, DecodedKey>, a: seq<Key>, n: map<string, DecodedKey>, b: seq<Key>)
    requires Indexes(stores, m, a) && Indexes(stores, n, b)
    requires Kids(a) == Kids(b) && forall k :: k in a <==> k in b
    ensures m == n
  {
    forall kid | kid in m ensures n[kid] == m[kid] {
      var k :| k in a && k.kid == kid;
    }
  }

  /** What a key of each algorithm family must look like. */
  predicate WellFormedFor(codec: Codec, k: PublicKey, alg: string) {
    && (alg == "EdDSA" ==> k.Ed25519? && |k.raw| == 32)
    && (IsRSAAlgorithm(alg) ==>
          && k.RSA? && k.modulus > 1 && k.modulus % 2 == 1
          && 3 <= k.exponent <= MAX_INT && k.exponent % 2 == 1)
    && (alg == "ES256" ==> k.P256? && |k.px| == |k.py| == 32 && codec.onCurve(k.px, k.py))
  }

  /** A stored key is well formed for the algorithm it is declared for, and given out for no other. */
  lemma DeclaredAlgorithmMatchesKey(codec: Codec, k: Key, alg: string)
    requires Acceptable(codec, k)
    ensures k.alg != "" ==> WellFormedFor(codec, Entry(codec, k).publicKey, k.alg)
    ensures match Entry(codec, k).ForAlgorithm(alg)
            case Some(v) => v == Entry(codec, k).publicKey && (k.alg == "" || alg == "" || alg == k.alg)
            case None => k.alg != "" && alg != "" && alg != k.alg
  {}
}
