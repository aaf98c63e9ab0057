/** `auth_app/utils.py`: the module-level Fernet codec with its key derived
    from `SECRET_KEY` when `FERNET_KEY` is unset, the `None`-preserving
    `encrypt_text`/`decrypt_text`, the HMAC signing key with its fallback to
    `SECRET_KEY`, and `sign_dict`, which signs the JSON serialisation of a
    dictionary with sorted keys. */
module AuditUtils {
  import opened Wrappers
  import opened Crypto
  import Records

  /** The key the module's Fernet is built from: `FERNET_KEY` when set and
      non-empty, otherwise `derive(SECRET_KEY)`, where `derive` is the
      url-safe Base64 (section 5 of RFC 4648) of the SHA-256 digest. */
  function ResolveFernetKey(configured: Option<string>, secretKey: string, derive: string -> string): (key: string)
    ensures Records.Truthy(configured) ==> key == configured.value
    ensures !Records.Truthy(configured) ==> key == derive(secretKey)
  {
    if Records.Truthy(configured) then configured.value else derive(secretKey)
  }

  /** `fernet = Fernet(FERNET_KEY)` at import: the key in use, or nothing when
      `Fernet` rejects it and the module fails to load. */
  function LoadFernet(configured: Option<string>, secretKey: string, derive: string -> string, f: Fernet): (key: Option<string>)
    ensures key.Some? <==> f.keyValid(ResolveFernetKey(configured, secretKey, derive))
    ensures key.Some? ==> key.value == ResolveFernetKey(configured, secretKey, derive)
  {
    var k := ResolveFernetKey(configured, secretKey, derive);
    if f.keyValid(k) then Some(k) else None
  }

  /** Without `FERNET_KEY`, the module loads with a key that depends on
      `SECRET_KEY` alone, so every process with the same `SECRET_KEY` (every
      restart) uses the same key — given that the derived text is always a
      valid Fernet key, as a Base64 32-byte digest is. */
  lemma DerivedKeyIsStable(configured1: Option<string>, configured2: Option<string>, secretKey: string,
                           derive: string -> string, f: Fernet)
    requires !Records.Truthy(configured1) && !Records.Truthy(configured2)
    requires forall s :: f.keyValid(derive(s))
    ensures LoadFernet(configured1, secretKey, derive, f) == LoadFernet(configured2, secretKey, derive, f) == Some(derive(secretKey))
  {
  }

  /** `encrypt_text(plain)`: `None` stays `None`; any text, the empty text
      included, is encrypted. */
  function EncryptText(plain: Option<string>, key: string, f: Fernet, entropy: string): (r: Option<string>)
    ensures r.None? <==> plain.None?
    ensures plain.Some? ==> r.value == f.encrypt(key, entropy, plain.value)
  {
    if plain.None? then None else Some(f.encrypt(key, entropy, plain.value))
  }

  /** `decrypt_text(token)`: `None` stays `None`; a token Fernet rejects also
      gives `None`, never an exception or a wrong plaintext. */
  function DecryptText(token: Option<string>, key: string, f: Fernet): (r: Option<string>)
    ensures token.None? ==> r.None?
    ensures token.Some? ==> r == f.decrypt(key, token.value)
  {
    if token.None? then None else f.decrypt(key, token.value)
  }

  /** Under a valid key, decryption undoes encryption for every value,
      `None` included. */
  lemma CodecRoundTrip(plain: Option<string>, key: string, f: Fernet, entropy: string)
    requires Sound(f) && f.keyValid(key)
    ensures DecryptText(EncryptText(plain, key, f, entropy), key, f) == plain
  {
  }

  /** Unlike the pass-through codec of the models, the empty text is
      encrypted here rather than returned as it is. */
  lemma EmptyTextEncrypted(key: string, f: Fernet, entropy: string, raw: Option<string>)
    requires Sound(f)
    ensures EncryptText(Some(""), key, f, entropy) != Some("")
    ensures Records.EncryptText(Some(""), raw, f, entropy) == Some("")
  {
    assert f.encrypt(key, entropy, "") != [];
  }

  /** The HMAC key: `AUDIT_SECRET_KEY` when it is set and non-empty,
      otherwise, silently, `SECRET_KEY`. */
  function SigningKey(auditSecret: Option<string>, secretKey: string): (key: string)
    ensures Records.Truthy(auditSecret) ==> key == auditSecret.value
    ensures !Records.Truthy(auditSecret) ==> key == secretKey
  {
    if Records.Truthy(auditSecret) then auditSecret.value else secretKey
  }

  /** `hmac_signature(msg)`. */
  function HmacSignature(h: HmacHex, auditSecret: Option<string>, secretKey: string, msg: string): string {
    h(SigningKey(auditSecret, secretKey), msg)
  }

  /** Without a usable `AUDIT_SECRET_KEY` (unset or empty) the signature is
      the HMAC under `SECRET_KEY`; with one, `SECRET_KEY` has no influence. */
  lemma SigningKeyFallback(h: HmacHex, auditSecret: Option<string>, secretKey: string, other: string, msg: string)
    ensures HmacSignature(h, None, secretKey, msg) == h(secretKey, msg)
    ensures HmacSignature(h, Some(""), secretKey, msg) == h(secretKey, msg)
    ensures auditSecret.Some? && auditSecret.value != [] ==>
      HmacSignature(h, auditSecret, secretKey, msg) == HmacSignature(h, auditSecret, other, msg) == h(auditSecret.value, msg)
  {
  }

  /** Python's ordering of `str`: lexicographic by code point. */
  predicate Below(a: string, b: string) {
    if |a| == 0 then |b| > 0
    else if |b| == 0 then false
    else if a[0] != b[0] then a[0] < b[0]
    else Below(a[1..], b[1..])
  }

  lemma {:induction false} BelowIrreflexive(a: string)
    ensures !Below(a, a)
  {
    if |a| > 0 { BelowIrreflexive(a[1..]); }
  }

  lemma {:induction false} BelowTransitive(a: string, b: string, c: string)
    requires Below(a, b) && Below(b, c)
    ensures Below(a, c)
  {
    if |a| > 0 && |b| > 0 && |c| > 0 && a[0] == b[0] == c[0] {
      BelowTransitive(a[1..], b[1..], c[1..]);
    }
  }

  lemma {:induction false} BelowTotal(a: string, b: string)
    requires a != b
    ensures Below(a, b) || Below(b, a)
  {
    if |a| > 0 && |b| > 0 && a[0] == b[0] {
      assert a == [a[0]] + a[1..] && b == [b[0]] + b[1..];
      BelowTotal(a[1..], b[1..]);
    }
  }

  lemma BelowAsymmetric(a: string, b: string)
    requires Below(a, b)
    ensures !Below(b, a)
  {
    if Below(b, a) {
      BelowTransitive(a, b, a);
      BelowIrreflexive(a);
    }
  }

  /** A dictionary's items in insertion order: keys are distinct. */
  predicate KeysDistinct<V>(items: seq<(string, V)>) {
    forall i, j :: 0 <= i < j < |items| ==> items[i].0 != items[j].0
  }

  predicate SortedByKey<V>(items: seq<(string, V)>) {
    forall i, j :: 0 <= i < j < |items| ==> Below(items[i].0, items[j].0)
  }

  ghost function Elements<V>(items: seq<(string, V)>): set<(string, V)> {
    set i | 0 <= i < |items| :: items[i]
  }

  lemma ElementsCons<V>(x: (string, V), items: seq<(string, V)>)
    ensures Elements([x] + items) == {x} + Elements(items)
  {
    forall e | e in Elements([x] + items) ensures e in {x} + Elements(items) {
      var i :| 0 <= i < |items| + 1 && ([x] + items)[i] == e;
      if i > 0 { assert items[i - 1] == e; }
    }
    forall e | e in Elements(items) ensures e in Elements([x] + items) {
      var i :| 0 <= i < |items| && items[i] == e;
      assert ([x] + items)[i + 1] == e;
    }
    assert ([x] + items)[0] == x;
  }

  lemma NoElements<V>(items: seq<(string, V)>)
    ensures Elements(items) == {} <==> items == []
  {
    if items != [] {
      assert items[0] in Elements(items);
    }
  }

  function Insert<V>(x: (string, V), items: seq<(string, V)>): (r: seq<(string, V)>)
    ensures Elements(r) == Elements(items) + {x}
    ensures |r| == |items| + 1
  {
    if |items| == 0 || Below(x.0, items[0].0) then
      ElementsCons(x, items);
      [x] + items
    else
      var rest := Insert(x, items[1..]);
      assert items == [items[0]] + items[1..];
      ElementsCons(items[0], items[1..]);
      ElementsCons(items[0], rest);
      [items[0]] + rest
  }

  lemma {:induction false} InsertSorted<V>(x: (string, V), items: seq<(string, V)>)
    requires SortedByKey(items)
    requires forall i :: 0 <= i < |items| ==> items[i].0 != x.0
    ensures SortedByKey(Insert(x, items))
  {
    if |items| == 0 || Below(x.0, items[0].0) {
      var r := [x] + items;
      forall j | 1 <= j < |r| ensures Below(x.0, r[j].0) {
        if j > 1 { BelowTransitive(x.0, items[0].0, items[j - 1].0); }
      }
    } else {
      BelowTotal(x.0, items[0].0);
      InsertSorted(x, items[1..]);
      var rest := Insert(x, items[1..]);
      var r := [items[0]] + rest;
      forall j | 1 <= j < |r| ensures Below(items[0].0, r[j].0) {
        assert rest[j - 1] in Elements(rest);
      }
    }
  }

  /** `sorted(d.items())` as `json.dumps(..., sort_keys=True)` orders them. */
  function SortItems<V>(items: seq<(string, V)>): (r: seq<(string, V)>)
    ensures Elements(r) == Elements(items) && |r| == |items|
  {
    if |items| == 0 then []
    else
      assert items == [items[0]] + items[1..];
      ElementsCons(items[0], items[1..]);
      Insert(items[0], SortItems(items[1..]))
  }

  /** Sorting a dictionary's items orders them strictly by key. */
  lemma {:induction false} SortItemsSorted<V>(items: seq<(string, V)>)
    requires KeysDistinct(items)
    ensures SortedByKey(SortItems(items))
  {
    if |items| > 0 {
      var tail := items[1..];
      SortItemsSorted(tail);
      var s := SortItems(tail);
      forall i | 0 <= i < |s| ensures s[i].0 != items[0].0 {
        assert s[i] in Elements(tail);
      }
      InsertSorted(items[0], s);
    }
  }

  /** Two item lists sorted strictly by key with the same elements are the
      same list. */
  lemma {:induction false} SortedUnique<V>(a: seq<(string, V)>, b: seq<(string, V)>)
    requires SortedByKey(a) && SortedByKey(b) && Elements(a) == Elements(b)
    ensures a == b
  {
    if |a| == 0 || |b| == 0 {
      NoElements(a);
      NoElements(b);
    } else {
      assert a[0] in Elements(b);
      assert b[0] in Elements(a);
      var i :| 0 <= i < |a| && a[i] == b[0];
      var j :| 0 <= j < |b| && b[j] == a[0];
      if i > 0 && j > 0 {
        BelowAsymmetric(a[0].0, a[i].0);
      }
      assert a[0] == b[0];
      assert Elements(a[1..]) == Elements(a) - {a[0]} by {
        TailElements(a);
      }
      assert Elements(b[1..]) == Elements(b) - {b[0]} by {
        TailElements(b);
      }
      SortedUnique(a[1..], b[1..]);
      assert a == [a[0]] + a[1..] && b == [b[0]] + b[1..];
    }
  }

  lemma TailElements<V>(a: seq<(string, V)>)
    requires |a| > 0 && SortedByKey(a)
    ensures Elements(a[1..]) == Elements(a) - {a[0]}
  {
    assert forall i :: 1 <= i < |a| ==> a[i] == a[1..][i - 1];
    assert forall i :: 0 <= i < |a| - 1 ==> a[1..][i] == a[i + 1];
    forall i | 1 <= i < |a| ensures a[i] != a[0] {
      BelowIrreflexive(a[0].0);
    }
  }

  /** `sign_dict(d)`: the HMAC of `json.dumps(d, sort_keys=True)`, where
      `dumps` serialises an ordered item list (RFC 8259). */
  function SignDict<V>(d: seq<(string, V)>, dumps: seq<(string, V)> -> string, h: HmacHex,
                       auditSecret: Option<string>, secretKey: string): string {
    HmacSignature(h, auditSecret, secretKey, dumps(SortItems(d)))
  }

  /** The signature of a dictionary does not depend on insertion order: two
      dictionaries with the same key/value pairs sign identically. */
  lemma SignDictOrderIndependent<V>(d1: seq<(string, V)>, d2: seq<(string, V)>, dumps: seq<(string, V)> -> string,
                                    h: HmacHex, auditSecret: Option<string>, secretKey: string)
    requires KeysDistinct(d1) && KeysDistinct(d2) && Elements(d1) == Elements(d2)
    ensures SignDict(d1, dumps, h, auditSecret, secretKey) == SignDict(d2, dumps, h, auditSecret, secretKey)
  {
    SortItemsSorted(d1);
    SortItemsSorted(d2);
    SortedUnique(SortItems(d1), SortItems(d2));
  }
}
