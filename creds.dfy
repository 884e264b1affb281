/** The credential vault of lib/creds.rb: class `Creds` joins a username and a
    password into `user:pass`, encrypts it under a key derived from a passphrase
    and a salt, frames IV, salt, passphrase and ciphertext into the `.creds`
    file, and reads the file back to recover and compare the credentials.

    Every step of the class is a transition function on `State` (a snapshot of
    the instance variables); the class methods update their fields exactly as
    those functions say. A Ruby exception becomes `Err`, carried together with
    the state the instance was left in when it was raised. */
module Vault {
  import opened Wrappers
  import opened Crypto
  import RubyText

  /** The byte of `:`, the separator between username and password. */
  const COLON: byte := 58

  /** The value held by `@username` or `@password`: a string, or the `false`
      that a failed decryption stores, or the `nil` left by a short split. */
  datatype Value = Str(s: Bytes) | False | Nil

  /** What `Array#join` writes for a value: the string itself, `"false"`, or
      nothing for `nil`. */
  function JoinText(v: Value): Bytes
  {
    match v
    case Str(s) => s
    case False => [102, 97, 108, 115, 101]
    case Nil => []
  }

  /** The exceptions the vault can raise to its caller. */
  datatype Error =
    | CredentialsNotSet   // set_pw_str: `raise Excection ...` (a NoMethodError, raised all the same)
    | NilIv               // `@decryptor.iv = nil`
    | BadIvLength         // an IV that is not 16 bytes
    | NilPassPhrase       // `Base64.decode64(nil)`
    | NilSalt             // PBKDF2 with a nil salt
    | NilKeyLen           // PBKDF2 with a nil key length

  datatype Result<T> = Ok(value: T) | Err(error: Error)

  /** How `read_key` ended; its rescue prints the message and carries on. */
  datatype ReadStatus =
    | Loaded              // every field read
    | Missing             // the file does not exist: nothing is assigned
    | NegativeLength      // a length field read as negative: `read` raised mid-way

  /** What `get_creds` returns. When decryption fails, the rescue's
      `return @username, @password = false, false` returns the three values
      `[@username, false, false]`: it assigns `false` to `@password` only, and
      `Sentinel` carries the username it kept. Otherwise every part of the
      split plaintext. */
  datatype Retrieved = Sentinel(username: Value) | Parts(parts: seq<Bytes>)

  /** The instance variables of a `Creds` object (`nil` as None). */
  datatype State = State(
    username: Value,
    password: Value,
    pwStr: Bytes,
    passPhrase: Option<Bytes>,
    salt: Option<Bytes>,
    iv: Option<Bytes>,
    keyLen: Option<nat>,
    key: Option<Bytes>,
    encrypted: Option<Bytes>,
    decrypted: Option<Bytes>)

  /** A step's result and the state it leaves behind. */
  datatype Step<T> = Step(st: State, result: Result<T>)

  // ---------------------------------------------------------------------------
  // The steps, in the order of the source
  // ---------------------------------------------------------------------------

  /** `initialize`: `username || ""`, a passphrase Base64-encoded from the
      caller's seed (host user name and time) and a fresh 16-byte salt. */
  function Initial(p: Primitives, username: Value, password: Value, seed: Bytes, freshSalt: Bytes): State
  {
    State(
      if username.Str? then username else Str([]),
      if password.Str? then password else Str([]),
      [], Some(p.encode64(seed)), Some(freshSalt), None, None, None, None, None)
  }

  /** `set_pw_str`: refuses an empty username or password, otherwise stores
      `[@username, @password].join(":")`. */
  function SetPwStrStep(st: State): Step<Bytes>
  {
    if st.username == Str([]) || st.password == Str([]) then Step(st, Err(CredentialsNotSet))
    else
      var pw := RubyText.Join([JoinText(st.username), JoinText(st.password)], COLON);
      Step(st.(pwStr := pw), Ok(pw))
  }

  /** `hmac_sha1_key`: PBKDF2 over the current passphrase and salt with 20000
      iterations and the recorded key length; a nil argument raises. */
  function DeriveKeyStep(st: State, p: Primitives): Step<Bytes>
  {
    if st.passPhrase.None? then Step(st, Err(NilPassPhrase))
    else if st.salt.None? then Step(st, Err(NilSalt))
    else if st.keyLen.None? then Step(st, Err(NilKeyLen))
    else
      var key := p.pbkdf2(st.passPhrase.value, st.salt.value, ITERATIONS, st.keyLen.value);
      Step(st.(key := Some(key)), Ok(key))
  }

  /** The decimal text of a size, as `fd.write` prints an Integer. */
  function SizeText(n: nat): (r: Bytes)
    ensures AsText(r) == RubyText.Digits(n)
  {
    var ds := RubyText.Digits(n);
    seq(|ds|, i requires 0 <= i < |ds| => ds[i] as int as byte)
  }

  /** The file `write_key` produces: its six writes back to back, the IV,
      the salt, the decimal size of the passphrase, the passphrase, the
      decimal size of the ciphertext and the ciphertext. */
  function KeyFile(iv: Bytes, salt: Bytes, passPhrase: Bytes, encrypted: Bytes): Bytes
  {
    iv + salt + SizeText(|passPhrase|) + passPhrase + SizeText(|encrypted|) + encrypted
  }

  /** What one `fd.read(n)` returns, and where the file position is afterwards. */
  datatype Chunk = Chunk(data: Option<Bytes>, next: nat)

  /** `IO#read(n)` for n >= 0 at position `pos`: "" for n = 0, nil at the end of
      the file, otherwise up to n bytes. */
  function ReadAt(file: Bytes, pos: nat, n: nat): (c: Chunk)
    ensures c.data.Some? ==> c.next == pos + |c.data.value| && |c.data.value| <= n
    ensures c.data.None? <==> n > 0 && pos >= |file|
    ensures c.data.None? ==> c.next == pos
  {
    if n == 0 then Chunk(Some([]), pos)
    else if pos >= |file| then Chunk(None, pos)
    else
      var end := if pos + n <= |file| then pos + n else |file|;
      Chunk(Some(file[pos..end]), end)
  }

  /** The bytes of a length field as text. */
  function AsText(b: Bytes): string
  {
    seq(|b|, i requires 0 <= i < |b| => b[i] as int as char)
  }

  /** `pl.to_i`: a length field read back; a nil field (end of file) reads 0. */
  function LengthValue(field: Option<Bytes>): int
  {
    if field.None? then 0 else RubyText.ToI(AsText(field.value))
  }

  /** A size-prefixed field as `read_key` reads it: two characters of size,
      then that many bytes. A negative size makes `read` raise. */
  datatype Sized = NegativeSize | Sized(data: Option<Bytes>, next: nat)

  function ReadSized(file: Bytes, pos: nat): Sized
  {
    var size := ReadAt(file, pos, 2);
    var n := LengthValue(size.data);
    if n < 0 then NegativeSize
    else
      var body := ReadAt(file, size.next, n);
      Sized(body.data, body.next)
  }

  /** `read_key`: reads 16 bytes of IV, 16 of salt, then the size-prefixed
      passphrase and the size-prefixed ciphertext, assigning each field as it
      goes. A missing file assigns nothing; a negative size makes `read` raise,
      and the rescue leaves the fields read so far assigned. */
  function ReadKeyStep(st: State, file: Option<Bytes>): Step<ReadStatus>
  {
    if file.None? then Step(st, Ok(Missing))
    else
      var f := file.value;
      var iv := ReadAt(f, 0, IV_LEN);
      var salt := ReadAt(f, iv.next, SALT_LEN);
      var st1 := st.(iv := iv.data, salt := salt.data);
      var pp := ReadSized(f, salt.next);
      if pp.NegativeSize? then Step(st1, Ok(NegativeLength))
      else
        var st2 := st1.(passPhrase := pp.data);
        var enc := ReadSized(f, pp.next);
        if enc.NegativeSize? then Step(st2, Ok(NegativeLength))
        else Step(st2.(encrypted := enc.data), Ok(Loaded))
  }

  /** `read_key` assigns only the key material: the username, the password and
      the joined pair stay as they were, whatever the file holds. */
  lemma ReadKeyKeepsCredentials(st: State, file: Option<Bytes>)
    ensures var r := ReadKeyStep(st, file).st;
      r.username == st.username && r.password == st.password && r.pwStr == st.pwStr
  {
  }

  /** `write_creds`: `set_pw_str`, a fresh IV, decode the passphrase, derive the
      key, encrypt `pw_str`, re-encode the passphrase and frame the file. The
      result is the byte content `write_key` writes. */
  function WriteCredsStep(st: State, freshIv: Bytes, p: Primitives): Step<Bytes>
  {
    var s1 := SetPwStrStep(st);
    if s1.result.Err? then Step(s1.st, Err(s1.result.error))
    else
      var st2 := s1.st.(iv := Some(freshIv));
      if st2.passPhrase.None? then Step(st2, Err(NilPassPhrase))
      else
        var st3 := st2.(passPhrase := Some(p.decode64(st2.passPhrase.value)), keyLen := Some(KEY_LEN));
        var s4 := DeriveKeyStep(st3, p);
        if s4.result.Err? then Step(s4.st, Err(s4.result.error))
        else
          var enc := p.encrypt(s4.result.value, freshIv, s4.st.pwStr);
          var st5 := s4.st.(encrypted := Some(enc), passPhrase := Some(p.encode64(s4.st.passPhrase.value)));
          Step(st5, Ok(KeyFile(freshIv, st5.salt.value, st5.passPhrase.value, enc)))
  }

  /** The `nil`-padded element of a split, as multiple assignment gives it. */
  function Part(parts: seq<Bytes>, i: nat): Value
  {
    if i < |parts| then Str(parts[i]) else Nil
  }

  /** `get_creds`: `read_key`, then the rest of `get_creds` on what it read. */
  function GetCredsStep(st: State, file: Option<Bytes>, p: Primitives): Step<Retrieved>
  {
    DecryptLoadedStep(ReadKeyStep(st, file).st, p)
  }

  /** The part of `get_creds` after `read_key`: set the key length, decode the
      passphrase, derive the key and decrypt. Only the decryption is guarded:
      a failure there stores `false` in `@password` only and returns the
      sentinel with the username kept;
      a failure before it (a nil or short IV, a nil passphrase or salt)
      propagates. On success the plaintext is split on `:` and its first two
      parts become the username and password. */
  function DecryptLoadedStep(st1: State, p: Primitives): Step<Retrieved>
  {
    if st1.iv.None? then Step(st1, Err(NilIv))
    else if |st1.iv.value| != IV_LEN then Step(st1, Err(BadIvLength))
    else
      var st2 := st1.(keyLen := Some(KEY_LEN));
      if st2.passPhrase.None? then Step(st2, Err(NilPassPhrase))
      else
        var st3 := st2.(passPhrase := Some(p.decode64(st2.passPhrase.value)));
        var s4 := DeriveKeyStep(st3, p);
        if s4.result.Err? then Step(s4.st, Err(s4.result.error))
        else
          var plain := if s4.st.encrypted.None? then None
                       else p.decrypt(s4.result.value, st1.iv.value, s4.st.encrypted.value);
          if plain.None? then Step(s4.st.(password := False), Ok(Sentinel(s4.st.username)))
          else
            var parts := RubyText.Split(plain.value, COLON);
            Step(s4.st.(decrypted := plain, username := Part(parts, 0), password := Part(parts, 1)),
                 Ok(Parts(parts)))
  }

  /** The rescue of `get_creds` assigns `false` to `@password` only and
      returns the username it kept. */
  lemma SentinelKeepsUsername(st1: State, p: Primitives)
    ensures var g := DecryptLoadedStep(st1, p);
      g.result.Ok? && g.result.value.Sentinel? ==>
        g.st.password == False && g.st.username == st1.username && g.result.value.username == st1.username
  {
  }

  /** `validate_creds`: `get_creds`, then compare both fields. */
  function ValidateCredsStep(st: State, file: Option<Bytes>, un: Bytes, pw: Bytes, p: Primitives): Step<bool>
  {
    var s := GetCredsStep(st, file, p);
    if s.result.Err? then Step(s.st, Err(s.result.error))
    else Step(s.st, Ok(s.st.username == Str(un) && s.st.password == Str(pw)))
  }

  // ---------------------------------------------------------------------------
  // The class
  // ---------------------------------------------------------------------------

  /** `Creds`. The cipher objects `@encryptor`/`@decryptor` are folded into the
      primitives; the `.creds` file is passed in (None when it does not exist)
      and returned as bytes. */
  class Creds {
    const prims: Primitives
    var username: Value
    var password: Value
    var pwStr: Bytes
    var passPhrase: Option<Bytes>
    var salt: Option<Bytes>
    var iv: Option<Bytes>
    var keyLen: Option<nat>
    var key: Option<Bytes>
    var encrypted: Option<Bytes>
    var decrypted: Option<Bytes>

    ghost function Snapshot(): State
      reads this
    {
      State(username, password, pwStr, passPhrase, salt, iv, keyLen, key, encrypted, decrypted)
    }

    /** `initialize(username = "", password = "")`; `seed` stands for
        `whoami` followed by `Time.new`, `freshSalt` for the 16 random bytes. */
    constructor (p: Primitives, username: Value, password: Value, seed: Bytes, freshSalt: Bytes)
      requires |freshSalt| == SALT_LEN
      ensures prims == p
      ensures Snapshot() == Initial(p, username, password, seed, freshSalt)
      ensures this.passPhrase == Some(p.encode64(seed)) && this.iv.None?
    {
      prims := p;
      this.username := if username.Str? then username else Str([]);
      this.password := if password.Str? then password else Str([]);
      pwStr := [];
      passPhrase := Some(p.encode64(seed));
      encrypted := None;
      decrypted := None;
      key := None;
      salt := Some(freshSalt);
      iv := None;
      keyLen := None;
    }

    /** `set_pw_str`. */
    method SetPwStr() returns (r: Result<Bytes>)
      modifies this
      ensures Snapshot() == SetPwStrStep(old(Snapshot())).st
      ensures r == SetPwStrStep(old(Snapshot())).result
      ensures r.Err? <==> old(username) == Str([]) || old(password) == Str([])
      ensures r.Ok? ==> pwStr == r.value == JoinText(username) + [COLON] + JoinText(password)
    {
      if username == Str([]) || password == Str([]) {
        return Err(CredentialsNotSet);
      }
      pwStr := RubyText.Join([JoinText(username), JoinText(password)], COLON);
      assert pwStr == JoinText(username) + [COLON] + RubyText.Join([JoinText(password)], COLON);
      r := Ok(pwStr);
    }

    /** `hmac_sha1_key`. */
    method HmacSha1Key() returns (r: Result<Bytes>)
      modifies this
      ensures Snapshot() == DeriveKeyStep(old(Snapshot()), prims).st
      ensures r == DeriveKeyStep(old(Snapshot()), prims).result
    {
      if passPhrase.None? {
        return Err(NilPassPhrase);
      }
      if salt.None? {
        return Err(NilSalt);
      }
      if keyLen.None? {
        return Err(NilKeyLen);
      }
      var k := prims.pbkdf2(passPhrase.value, salt.value, ITERATIONS, keyLen.value);
      key := Some(k);
      r := Ok(k);
    }

    /** `write_key`: the bytes written to the file, field by field. */
    method WriteKey() returns (file: Bytes)
      requires iv.Some? && salt.Some? && passPhrase.Some? && encrypted.Some?
      ensures file == KeyFile(iv.value, salt.value, passPhrase.value, encrypted.value)
    {
      file := iv.value;
      file := file + salt.value;
      file := file + SizeText(|passPhrase.value|);
      file := file + passPhrase.value;
      file := file + SizeText(|encrypted.value|);
      file := file + encrypted.value;
    }

    /** `read_key`, reading the file front to back. */
    method ReadKey(file: Option<Bytes>) returns (status: ReadStatus)
      modifies this
      ensures Snapshot() == ReadKeyStep(old(Snapshot()), file).st
      ensures Ok(status) == ReadKeyStep(old(Snapshot()), file).result
    {
      if file.None? {
        return Missing;
      }
      ghost var st0 := Snapshot();
      var f := file.value;
      var c := ReadAt(f, 0, IV_LEN);
      iv := c.data;
      c := ReadAt(f, c.next, SALT_LEN);
      salt := c.data;
      ghost var st1 := Snapshot();
      assert st1 == st0.(iv := iv, salt := salt);
      var pp := ReadSized(f, c.next);
      if pp.NegativeSize? {
        return NegativeLength;
      }
      passPhrase := pp.data;
      ghost var st2 := Snapshot();
      assert st2 == st1.(passPhrase := pp.data);
      var enc := ReadSized(f, pp.next);
      if enc.NegativeSize? {
        return NegativeLength;
      }
      encrypted := enc.data;
      assert Snapshot() == st2.(encrypted := enc.data);
      status := Loaded;
    }

    /** `write_creds`, with `freshIv` standing for `random_iv`. Returns the
        bytes of the `.creds` file it writes. */
    method WriteCreds(freshIv: Bytes) returns (r: Result<Bytes>)
      modifies this
      ensures Snapshot() == WriteCredsStep(old(Snapshot()), freshIv, prims).st
      ensures r == WriteCredsStep(old(Snapshot()), freshIv, prims).result
      ensures r == Err(CredentialsNotSet) ==> Snapshot() == old(Snapshot())
    {
      var s := SetPwStr();
      if s.Err? {
        return Err(s.error);
      }
      iv := Some(freshIv);
      if passPhrase.None? {
        return Err(NilPassPhrase);
      }
      passPhrase := Some(prims.decode64(passPhrase.value));
      keyLen := Some(KEY_LEN);
      var k := HmacSha1Key();
      if k.Err? {
        return Err(k.error);
      }
      encrypted := Some(prims.encrypt(k.value, freshIv, pwStr));
      passPhrase := Some(prims.encode64(passPhrase.value));
      var file := WriteKey();
      r := Ok(file);
    }

    /** `get_creds` on the given `.creds` file. */
    method GetCreds(file: Option<Bytes>) returns (r: Result<Retrieved>)
      modifies this
      ensures Snapshot() == GetCredsStep(old(Snapshot()), file, prims).st
      ensures r == GetCredsStep(old(Snapshot()), file, prims).result
      ensures r.Ok? && r.value.Sentinel? ==>
        password == False && username == old(username) && r.value.username == username
    {
      ReadKeyKeepsCredentials(Snapshot(), file);
      var _ := ReadKey(file);
      r := DecryptLoaded();
    }

    /** The rest of `get_creds`, on the fields `read_key` left. */
    method DecryptLoaded() returns (r: Result<Retrieved>)
      modifies this
      ensures Snapshot() == DecryptLoadedStep(old(Snapshot()), prims).st
      ensures r == DecryptLoadedStep(old(Snapshot()), prims).result
      ensures r.Ok? && r.value.Sentinel? ==>
        password == False && username == old(username) && r.value.username == username
    {
      ghost var loaded := Snapshot();
      SentinelKeepsUsername(loaded, prims);
      if iv.None? {
        return Err(NilIv);
      }
      if |iv.value| != IV_LEN {
        return Err(BadIvLength);
      }
      keyLen := Some(KEY_LEN);
      if passPhrase.None? {
        return Err(NilPassPhrase);
      }
      passPhrase := Some(prims.decode64(passPhrase.value));
      ghost var decoded := Snapshot();
      assert decoded == loaded.(keyLen := Some(KEY_LEN), passPhrase := Some(prims.decode64(loaded.passPhrase.value)));
      var k := HmacSha1Key();
      if k.Err? {
        return Err(k.error);
      }
      var plain := if encrypted.None? then None else prims.decrypt(k.value, iv.value, encrypted.value);
      if plain.None? {
        password := False;
        return Ok(Sentinel(username));
      }
      decrypted := plain;
      var parts := RubyText.Split(plain.value, COLON);
      username, password := Part(parts, 0), Part(parts, 1);
      r := Ok(Parts(parts));
    }

    /** `validate_creds(un, pw)`. */
    method ValidateCreds(file: Option<Bytes>, un: Bytes, pw: Bytes) returns (r: Result<bool>)
      modifies this
      ensures Snapshot() == ValidateCredsStep(old(Snapshot()), file, un, pw, prims).st
      ensures r == ValidateCredsStep(old(Snapshot()), file, un, pw, prims).result
      ensures r.Ok? ==> (r.value <==> username == Str(un) && password == Str(pw))
    {
      var g := GetCreds(file);
      if g.Err? {
        return Err(g.error);
      }
      r := Ok(username == Str(un) && password == Str(pw));
    }
  }
}
