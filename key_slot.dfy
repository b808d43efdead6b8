/**
 * The encryption-key slot of the process environment: `bind_encryption_key`
 * writes `ENCRYPTION_KEY` with `putenv`, `has_encryption_key` reads it back
 * with `getenv`, and `session_begin` refuses to start without it.
 */
module KeyManager {
  import opened Wrappers
  import opened CipherCodec

  /** The environment variable holding the key. */
  const EncryptionKeyVar := "ENCRYPTION_KEY"

  /** PHP's `empty()` on a string: true for `""` and for `"0"`. */
  predicate PhpEmpty(v: Bytes)
  {
    v == [] || v == [48]
  }

  /** Why `session_begin` throws. */
  datatype SessionError = NoEncryptionKey

  /** The process environment as `getenv`/`putenv` see it. */
  class Environment {
    var vars: map<string, Bytes>

    constructor(initial: map<string, Bytes>)
      ensures vars == initial
    {
      vars := initial;
    }

    /** `getenv($name)`: the value, or `false` (here `None`) when unset. */
    function Getenv(name: string): (v: Option<Bytes>)
      reads this
      ensures v.Some? <==> name in vars
      ensures v.Some? ==> v.value == vars[name]
    {
      if name in vars then Some(vars[name]) else None
    }

    /**
     * `has_encryption_key()`: `empty(getenv('ENCRYPTION_KEY')) === false`,
     * so an unset variable, `""` and `"0"` all count as no key.
     */
    predicate HasEncryptionKey()
      reads this
      ensures HasEncryptionKey() <==>
                (EncryptionKeyVar in vars && vars[EncryptionKeyVar] != [] && vars[EncryptionKeyVar] != [48])
    {
      match Getenv(EncryptionKeyVar)
      case None => false
      case Some(v) => !PhpEmpty(v)
    }

    /**
     * `bind_encryption_key($key)`: sets `ENCRYPTION_KEY` and leaves every
     * other variable as it was; afterwards a key is present unless `$key`
     * is empty in PHP's sense.
     */
    method BindEncryptionKey(key: Bytes)
      modifies this
      ensures vars == old(vars)[EncryptionKeyVar := key]
      ensures HasEncryptionKey() <==> !PhpEmpty(key)
      ensures Getenv(EncryptionKeyVar) == Some(key)
    {
      vars := vars[EncryptionKeyVar := key];
    }

    /**
     * The guard of `session_begin($lifetime)`: without a key it throws;
     * otherwise it reports what `session_start` returned, passed in as `started`.
     */
    method SessionBegin(lifetime: int, started: bool) returns (r: Result<bool, SessionError>)
      ensures r.Err? <==> !HasEncryptionKey()
      ensures r.Ok? ==> r.value == started
    {
      if !HasEncryptionKey() {
        return Err(NoEncryptionKey);
      }
      return Ok(started);
    }
  }

  /** Binding a key, then starting a session: it starts once the key is non-empty, and not before. */
  method KeySlotExample(key: Bytes) returns (early: Result<bool, SessionError>, late: Result<bool, SessionError>, zero: bool)
    requires key == [107, 101, 121]
    ensures early.Err? && late == Ok(true) && !zero
  {
    var env := new Environment(map[]);
    early := env.SessionBegin(86400, true);
    env.BindEncryptionKey(key);
    late := env.SessionBegin(86400, true);
    env.BindEncryptionKey([48]);
    zero := env.HasEncryptionKey();
  }
}
