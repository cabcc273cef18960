/** Plugin settings with secret fields: server/controllers/plugins.go. */
module PluginConfig {
  import opened Options

  datatype Field = Field(key: string, secret: bool)

  type Config = map<string, string>

  /** The credential service: encryption draws a nonce, so equal texts need not encrypt alike; either call may fail. */
  datatype Provider = Provider(encrypt: (nat, string) -> Option<string>, decrypt: string -> Option<string>)

  const MaskedSecret := "******"

  /** What authenticated encryption under one fixed key promises. */
  ghost predicate Sound(p: Provider) {
    forall n: nat, v :: p.encrypt(n, v).Some? ==> p.decrypt(p.encrypt(n, v).value) == Some(v) && p.encrypt(n, v).value != ""
  }

  /** The first field of that key decides. */
  function IsSecret(fields: seq<Field>, key: string): (secret: bool) {
    if fields == [] then false
    else if fields[0].key == key then fields[0].secret
    else IsSecret(fields[1..], key)
  }

  /** The first of `fields` with that key stands at `i`. */
  ghost predicate FirstWith(fields: seq<Field>, key: string, i: nat) {
    && i < |fields| && fields[i].key == key
    && forall j :: 0 <= j < i ==> fields[j].key != key
  }

  lemma {:induction false} IsSecretIff(fields: seq<Field>, key: string)
    ensures IsSecret(fields, key) <==> exists i: nat :: FirstWith(fields, key, i) && fields[i].secret
  {
    if fields != [] {
      var rest := fields[1..];
      if fields[0].key == key {
        assert FirstWith(fields, key, 0);
      } else {
        IsSecretIff(rest, key);
        assert forall i: nat :: i < |rest| ==> rest[i] == fields[i + 1];
        if i: nat :| FirstWith(rest, key, i) && rest[i].secret {
          assert FirstWith(fields, key, i + 1);
        }
        if i: nat :| FirstWith(fields, key, i) && fields[i].secret {
          assert i > 0;
          assert FirstWith(rest, key, i - 1);
        }
      }
    }
  }

  /** A value the service encrypts, decrypts and masks. */
  predicate Guarded(fields: seq<Field>, key: string, value: string) {
    IsSecret(fields, key) && value != ""
  }

  function EncryptedValue(fields: seq<Field>, p: Provider, nonce: nat, key: string, value: string): Option<string> {
    if Guarded(fields, key, value) then p.encrypt(nonce, value) else Some(value)
  }

  function DecryptedValue(fields: seq<Field>, p: Provider, key: string, value: string): Option<string> {
    if Guarded(fields, key, value) then p.decrypt(value) else Some(value)
  }

  predicate Encryptable(fields: seq<Field>, p: Provider, nonces: string -> nat, cfg: Config) {
    forall k <- cfg.Keys :: EncryptedValue(fields, p, nonces(k), k, cfg[k]).Some?
  }

  predicate Decryptable(fields: seq<Field>, p: Provider, cfg: Config) {
    forall k <- cfg.Keys :: DecryptedValue(fields, p, k, cfg[k]).Some?
  }

  function Encrypted(fields: seq<Field>, p: Provider, nonces: string -> nat, cfg: Config): Option<Config> {
    if Encryptable(fields, p, nonces, cfg)
    then Some(map k <- cfg.Keys :: EncryptedValue(fields, p, nonces(k), k, cfg[k]).value)
    else None
  }

  function Decrypted(fields: seq<Field>, p: Provider, cfg: Config): Option<Config> {
    if Decryptable(fields, p, cfg)
    then Some(map k <- cfg.Keys :: DecryptedValue(fields, p, k, cfg[k]).value)
    else None
  }

  function Masked(fields: seq<Field>, cfg: Config): Config {
    map k <- cfg.Keys :: if Guarded(fields, k, cfg[k]) then MaskedSecret else cfg[k]
  }

  /** The submitted keys that an edit leaves alone. */
  predicate Kept(fields: seq<Field>, key: string, value: string) {
    IsSecret(fields, key) && value == MaskedSecret
  }

  function Overlaid(fields: seq<Field>, plain: Config, edit: Config): Config {
    map k <- plain.Keys + edit.Keys | k in plain || !Kept(fields, k, edit[k]) ::
      if k in edit && !Kept(fields, k, edit[k]) then edit[k] else plain[k]
  }

  /** The stored text: parsed settings, or None when it is not a JSON object of strings. */
  type Stored = Option<Config>

  function Opened(fields: seq<Field>, p: Provider, stored: Stored): Option<Config> {
    if stored == None then None else Decrypted(fields, p, stored.value)
  }

  function Merged(fields: seq<Field>, p: Provider, nonces: string -> nat, stored: Stored, edit: Config): Option<Config> {
    match Opened(fields, p, stored)
    case None => None
    case Some(plain) => Encrypted(fields, p, nonces, Overlaid(fields, plain, edit))
  }

  /** The keys of `edit` already merged when `todo` are left. */
  ghost function Without(edit: Config, todo: set<string>): Config {
    map k <- edit.Keys - todo :: edit[k]
  }

  lemma OverlayOneMore(fields: seq<Field>, plain: Config, edit: Config, todo: set<string>, k: string)
    requires k in todo && k in edit
    ensures var merged := Overlaid(fields, plain, Without(edit, todo));
            Overlaid(fields, plain, Without(edit, todo - {k})) ==
            if Kept(fields, k, edit[k]) then merged else merged[k := edit[k]]
  {
  }

  // ----- The loops -----

  method IsSecretField(fields: seq<Field>, key: string) returns (secret: bool)
    ensures secret == IsSecret(fields, key)
    ensures secret <==> exists i: nat :: FirstWith(fields, key, i) && fields[i].secret
  {
    IsSecretIff(fields, key);
    for i := 0 to |fields|
      invariant IsSecret(fields, key) == IsSecret(fields[i..], key)
    {
      if fields[i].key == key {
        return fields[i].secret;
      }
    }
    return false;
  }

  method EncryptPluginConfig(fields: seq<Field>, p: Provider, nonces: string -> nat, cfg: Config) returns (r: Option<Config>)
    ensures r == Encrypted(fields, p, nonces, cfg)
    ensures r == None <==> exists k :: k in cfg && IsSecret(fields, k) && cfg[k] != "" && p.encrypt(nonces(k), cfg[k]) == None
    ensures r.Some? ==> r.value.Keys == cfg.Keys && forall k <- cfg.Keys ::
              if IsSecret(fields, k) && cfg[k] != "" then p.encrypt(nonces(k), cfg[k]) == Some(r.value[k]) else r.value[k] == cfg[k]
  {
    var out: Config := map[];
    var todo := cfg.Keys;
    while todo != {}
      invariant todo <= cfg.Keys && out.Keys == cfg.Keys - todo
      invariant forall k <- out.Keys :: EncryptedValue(fields, p, nonces(k), k, cfg[k]) == Some(out[k])
    {
      var k :| k in todo;
      var v := cfg[k];
      var secret := IsSecretField(fields, k);
      if secret && v != "" {
        var enc := p.encrypt(nonces(k), v);
        if enc == None {
          assert EncryptedValue(fields, p, nonces(k), k, cfg[k]) == None;
          return None;
        }
        out := out[k := enc.value];
      } else {
        out := out[k := v];
      }
      todo := todo - {k};
    }
    r := Some(out);
    assert out == Encrypted(fields, p, nonces, cfg).value;
  }

  /** Overwrites the values of the parsed map as it goes. */
  method DecryptPluginConfig(fields: seq<Field>, p: Provider, raw: Stored) returns (r: Option<Config>)
    ensures r == Opened(fields, p, raw)
    ensures r == None <==> raw == None || exists k :: k in raw.value && IsSecret(fields, k) && raw.value[k] != "" && p.decrypt(raw.value[k]) == None
    ensures r.Some? ==> r.value.Keys == raw.value.Keys && forall k <- r.value.Keys ::
              if IsSecret(fields, k) && raw.value[k] != "" then p.decrypt(raw.value[k]) == Some(r.value[k]) else r.value[k] == raw.value[k]
  {
    if raw == None {
      return None;
    }
    ghost var stored := raw.value;
    var cfg := raw.value;
    var todo := cfg.Keys;
    while todo != {}
      invariant todo <= stored.Keys == cfg.Keys
      invariant forall k <- todo :: cfg[k] == stored[k]
      invariant forall k <- stored.Keys - todo :: DecryptedValue(fields, p, k, stored[k]) == Some(cfg[k])
    {
      var k :| k in todo;
      var v := cfg[k];
      var secret := IsSecretField(fields, k);
      if secret && v != "" {
        var pt := p.decrypt(v);
        if pt == None {
          assert DecryptedValue(fields, p, k, stored[k]) == None;
          return None;
        }
        cfg := cfg[k := pt.value];
      }
      todo := todo - {k};
    }
    r := Some(cfg);
    assert cfg == Decrypted(fields, p, stored).value;
  }

  method MaskSecretConfig(fields: seq<Field>, cfg: Config) returns (out: Config)
    ensures out == Masked(fields, cfg)
    ensures out.Keys == cfg.Keys && forall k <- cfg.Keys ::
              out[k] == if IsSecret(fields, k) && cfg[k] != "" then "******" else cfg[k]
  {
    out := map[];
    var todo := cfg.Keys;
    while todo != {}
      invariant todo <= cfg.Keys && out.Keys == cfg.Keys - todo
      invariant forall k <- out.Keys :: out[k] == Masked(fields, cfg)[k]
    {
      var k :| k in todo;
      var v := cfg[k];
      var secret := IsSecretField(fields, k);
      out := out[k := if secret && v != "" then MaskedSecret else v];
      todo := todo - {k};
    }
  }

  method MergeConfig(fields: seq<Field>, p: Provider, nonces: string -> nat, stored: Stored, edit: Config) returns (r: Option<Config>)
    ensures r == Merged(fields, p, nonces, stored, edit)
  {
    var decrypted := DecryptPluginConfig(fields, p, stored);
    if decrypted == None {
      return None;
    }
    var orig := decrypted.value;
    var todo := edit.Keys;
    assert Overlaid(fields, orig, Without(edit, todo)) == orig;
    while todo != {}
      invariant todo <= edit.Keys
      invariant orig == Overlaid(fields, decrypted.value, Without(edit, todo))
    {
      var k :| k in todo;
      var secret := IsSecretField(fields, k);
      OverlayOneMore(fields, decrypted.value, edit, todo, k);
      if !(secret && edit[k] == MaskedSecret) {
        orig := orig[k := edit[k]];
      }
      todo := todo - {k};
    }
    assert Without(edit, todo) == edit;
    r := EncryptPluginConfig(fields, p, nonces, orig);
  }

  // ----- What the loops preserve -----

  /** Whatever is stored reads back unchanged, under any nonces. */
  lemma EncryptThenDecrypt(fields: seq<Field>, p: Provider, nonces: string -> nat, cfg: Config)
    requires Sound(p) && Encryptable(fields, p, nonces, cfg)
    ensures Decrypted(fields, p, Encrypted(fields, p, nonces, cfg).value) == Some(cfg)
  {
    var stored := Encrypted(fields, p, nonces, cfg).value;
    forall k <- cfg.Keys
      ensures DecryptedValue(fields, p, k, stored[k]) == Some(cfg[k])
    {
      var n := nonces(k);
      assert p.encrypt(n, cfg[k]).Some? ==> p.decrypt(p.encrypt(n, cfg[k]).value) == Some(cfg[k]);
    }
    assert Decrypted(fields, p, stored).value == cfg;
  }

  /** An edit that went through replaced exactly the submitted values that are not masks over secrets. */
  lemma MergeChangesOnlyTheEdit(fields: seq<Field>, p: Provider, nonces: string -> nat, stored: Config, edit: Config, after: Config)
    requires Sound(p) && Merged(fields, p, nonces, Some(stored), edit) == Some(after)
    ensures Decrypted(fields, p, stored).Some? && Decrypted(fields, p, after).Some?
    ensures var before, now := Decrypted(fields, p, stored).value, Decrypted(fields, p, after).value;
            && (forall k <- edit.Keys :: !(IsSecret(fields, k) && edit[k] == "******") ==> k in now && now[k] == edit[k])
            && (forall k <- edit.Keys :: IsSecret(fields, k) && edit[k] == "******" ==>
                  (k in now <==> k in before) && (k in now ==> now[k] == before[k]))
            && (forall k | k !in edit :: (k in now <==> k in before) && (k in now ==> now[k] == before[k]))
  {
    var before := Decrypted(fields, p, stored).value;
    EncryptThenDecrypt(fields, p, nonces, Overlaid(fields, before, edit));
  }

  /** The value a merge puts under `k`: the submitted one, or else the stored one. */
  ghost predicate Puts(fields: seq<Field>, p: Provider, stored: Config, edit: Config, k: string, v: string) {
    if k in edit && !(IsSecret(fields, k) && edit[k] == "******") then v == edit[k]
    else k in stored && (if IsSecret(fields, k) && stored[k] != "" then p.decrypt(stored[k]) == Some(v) else v == stored[k])
  }

  /** A merge is refused exactly when the stored text does not parse, a stored secret does not decrypt, or a
      secret to be written does not encrypt. */
  lemma MergeFailsIff(fields: seq<Field>, p: Provider, nonces: string -> nat, stored: Stored, edit: Config)
    ensures Merged(fields, p, nonces, stored, edit) == None <==>
            (|| stored == None
             || (exists k :: k in stored.value && IsSecret(fields, k) && stored.value[k] != "" && p.decrypt(stored.value[k]) == None)
             || (exists k, v :: Puts(fields, p, stored.value, edit, k, v) && IsSecret(fields, k) && v != "" && p.encrypt(nonces(k), v) == None))
  {
    if Opened(fields, p, stored).Some? {
      var cfg := stored.value;
      var plain := Decrypted(fields, p, cfg).value;
      var all := Overlaid(fields, plain, edit);
      assert forall k :: k in cfg ==> DecryptedValue(fields, p, k, cfg[k]).Some?;
      forall k, v
        ensures Puts(fields, p, cfg, edit, k, v) <==> k in all && all[k] == v
      {
        if k in cfg {
          assert DecryptedValue(fields, p, k, cfg[k]) == Some(plain[k]);
        }
      }
      if Encryptable(fields, p, nonces, all) {
        assert forall k :: k in all ==> EncryptedValue(fields, p, nonces(k), k, all[k]).Some?;
      } else {
        var k :| k in all && EncryptedValue(fields, p, nonces(k), k, all[k]) == None;
        assert Puts(fields, p, cfg, edit, k, all[k]);
      }
    }
  }

  /** Submitting the view as it was shown changes no value, including empty secrets and a secret spelled like the mask. */
  lemma MaskedEditIsNoOp(fields: seq<Field>, p: Provider, nonces: string -> nat, stored: Config, plain: Config)
    requires Sound(p) && Decrypted(fields, p, stored) == Some(plain)
    ensures Merged(fields, p, nonces, Some(stored), Masked(fields, plain)) == Encrypted(fields, p, nonces, plain)
    ensures Encryptable(fields, p, nonces, plain) ==>
              Decrypted(fields, p, Merged(fields, p, nonces, Some(stored), Masked(fields, plain)).value) == Some(plain)
  {
    assert Overlaid(fields, plain, Masked(fields, plain)) == plain;
    if Encryptable(fields, p, nonces, plain) {
      EncryptThenDecrypt(fields, p, nonces, plain);
    }
  }

  /** An edit takes effect once: sending it again changes nothing, whatever nonces each write drew. */
  lemma MergeIsIdempotent(fields: seq<Field>, p: Provider, n1: string -> nat, n2: string -> nat, stored: Config, edit: Config, once: Config, twice: Config)
    requires Sound(p) && Merged(fields, p, n1, Some(stored), edit) == Some(once)
    requires Merged(fields, p, n2, Some(once), edit) == Some(twice)
    ensures Decrypted(fields, p, twice) == Decrypted(fields, p, once)
  {
    var before := Decrypted(fields, p, stored).value;
    EncryptThenDecrypt(fields, p, n1, Overlaid(fields, before, edit));
    var middle := Overlaid(fields, before, edit);
    assert Overlaid(fields, middle, edit) == middle;
    EncryptThenDecrypt(fields, p, n2, middle);
  }

  /** Two configurations that agree except on what their non-empty secrets are. */
  ghost predicate DifferInSecretsOnly(fields: seq<Field>, a: Config, b: Config) {
    && a.Keys == b.Keys
    && forall k <- a.Keys :: a[k] == b[k] || (Guarded(fields, k, a[k]) && Guarded(fields, k, b[k]))
  }

  /** The view reveals nothing about a secret but whether it is empty: exactly such configurations look alike. */
  lemma ViewsAgreeIff(fields: seq<Field>, a: Config, b: Config)
    ensures Masked(fields, a) == Masked(fields, b) <==> DifferInSecretsOnly(fields, a, b)
  {
    var va, vb := Masked(fields, a), Masked(fields, b);
    if va == vb {
      assert a.Keys == va.Keys == vb.Keys == b.Keys;
      forall k <- a.Keys
        ensures a[k] == b[k] || (Guarded(fields, k, a[k]) && Guarded(fields, k, b[k]))
      {
        assert va[k] == vb[k];
      }
    }
  }

  /** A submitted mask never becomes a secret's value: it is dropped when nothing was stored under the key. */
  lemma MaskIsNeverStored(fields: seq<Field>, p: Provider, nonces: string -> nat, stored: Config, edit: Config, after: Config, k: string)
    requires Sound(p) && Merged(fields, p, nonces, Some(stored), edit) == Some(after)
    requires IsSecret(fields, k) && k in after && Decrypted(fields, p, after).Some?
    requires Decrypted(fields, p, after).value[k] == MaskedSecret
    ensures k in stored && Decrypted(fields, p, stored).Some? && Decrypted(fields, p, stored).value[k] == MaskedSecret
  {
    MergeChangesOnlyTheEdit(fields, p, nonces, stored, edit, after);
    var before, now := Decrypted(fields, p, stored).value, Decrypted(fields, p, after).value;
    assert k in now;
    assert k in before && before[k] == now[k];
  }
}
