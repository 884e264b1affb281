/** What the credential vault of lib/creds.rb guarantees, and where it breaks:
    the empty-field guard, the `user:pass` plaintext, the passphrase
    decode/re-encode order, the file layout and its two-digit limit, the
    write/read round trip with the same key on both paths, the sentinel on a
    failed decryption, and the `:` ambiguity. */
module VaultProperties {
  import opened Wrappers
  import opened Crypto
  import RubyText
  import opened Vault

  // ---------------------------------------------------------------------------
  // write_creds
  // ---------------------------------------------------------------------------

  /** `write_creds` raises the unset-credentials error exactly when the
      username or the password is the empty string, and then nothing has been
      encrypted, derived or written: the instance is unchanged. */
  lemma EmptyFieldGuard(st: State, freshIv: Bytes, p: Primitives)
    ensures var w := WriteCredsStep(st, freshIv, p);
      w.result == Err(CredentialsNotSet) <==> st.username == Str([]) || st.password == Str([])
    ensures var w := WriteCredsStep(st, freshIv, p);
      w.result == Err(CredentialsNotSet) ==> w.st == st
  {
  }

  /** What a successful `write_creds` encrypts is exactly
      `username + ":" + password`, under the freshly drawn IV and the key it
      derived, and the file it writes holds that IV and that ciphertext. */
  lemma {:induction false} PlaintextIsJoinedPair(st: State, freshIv: Bytes, p: Primitives)
    requires WriteCredsStep(st, freshIv, p).result.Ok?
    ensures var w := WriteCredsStep(st, freshIv, p);
      && w.st.pwStr == JoinText(st.username) + [COLON] + JoinText(st.password)
      && w.st.key.Some? && w.st.iv == Some(freshIv) && w.st.salt.Some? && w.st.passPhrase.Some?
      && w.st.encrypted == Some(p.encrypt(w.st.key.value, freshIv, w.st.pwStr))
      && w.result.value == KeyFile(freshIv, w.st.salt.value, w.st.passPhrase.value, w.st.encrypted.value)
  {
    var pw := RubyText.Join([JoinText(st.username), JoinText(st.password)], COLON);
    assert pw == JoinText(st.username) + [COLON] + RubyText.Join([JoinText(st.password)], COLON);
  }

  /** `write_creds` decodes the passphrase before deriving the key and
      re-encodes it afterwards: starting from an `encode64` output, the key is
      derived from the decoded text with the salt, 20000 iterations and 16-byte
      key length, and the passphrase ends as it started, encoded, which is the
      form written to the file. */
  lemma PassPhraseRestored(st: State, freshIv: Bytes, p: Primitives, plain: Bytes)
    requires Lawful(p)
    requires st.passPhrase == Some(p.encode64(plain))
    requires WriteCredsStep(st, freshIv, p).result.Ok?
    ensures var w := WriteCredsStep(st, freshIv, p);
      && w.st.passPhrase == st.passPhrase
      && w.st.salt == st.salt
      && w.st.key == Some(p.pbkdf2(plain, st.salt.value, ITERATIONS, KEY_LEN))
  {
  }

  // ---------------------------------------------------------------------------
  // The file layout
  // ---------------------------------------------------------------------------

  /** A two-digit size is written as two bytes. */
  lemma TwoDigitSizeLength(n: nat)
    requires 10 <= n <= 99
    ensures |SizeText(n)| == 2
  {
    RubyText.TwoDigitText(n);
  }

  /** Size text of a two-digit size reads back as that size. */
  lemma TwoDigitSizeField(n: nat)
    requires 10 <= n <= 99
    ensures |SizeText(n)| == 2
    ensures LengthValue(Some(SizeText(n))) == n
  {
    TwoDigitSizeLength(n);
    RubyText.ToIOfDigits(n);
  }

  /** Any size text starts with a digit, so its first two bytes read back as a
      number from 0 to 99. */
  lemma SizeFieldPrefixBound(n: nat, field: Bytes)
    requires |field| <= 2 && |field| <= |SizeText(n)| && field == SizeText(n)[..|field|]
    ensures 0 <= LengthValue(Some(field)) < 100
  {
    var t := AsText(field);
    var ds := RubyText.Digits(n);
    assert t == ds[..|t|] by {
      forall i | 0 <= i < |t| ensures t[i] == ds[i] {
        assert t[i] == AsText(SizeText(n))[i];
      }
    }
    assert RubyText.SkipSpace(t) == t by {
      if |t| > 0 { assert !RubyText.IsSpace(t[0]); }
    }
    RubyText.ToIOfTwoChars(t);
    assert |t| > 0 ==> t[0] != '-';
  }

  /** The six pieces of a concatenation sit at their running offsets. */
  lemma Pieces(a: Bytes, b: Bytes, c: Bytes, d: Bytes, e: Bytes, g: Bytes)
    ensures var f := a + b + c + d + e + g;
      var i1, i2 := |a|, |a| + |b|;
      var i3 := i2 + |c|;
      var i4 := i3 + |d|;
      var i5 := i4 + |e|;
      && |f| == i5 + |g|
      && f[..i1] == a && f[i1..i2] == b && f[i2..i3] == c
      && f[i3..i4] == d && f[i4..i5] == e && f[i5..] == g
  {
    var f := a + b + c + d + e + g;
    assert f == a + (b + (c + (d + (e + g))));
    assert f[|a|..] == b + (c + (d + (e + g)));
    assert f[|a| + |b|..] == c + (d + (e + g));
    assert f[|a| + |b| + |c|..] == d + (e + g);
    assert f[|a| + |b| + |c| + |d|..] == e + g;
  }

  /** `fd.read(n)` of a stretch that lies inside the file returns it. */
  lemma ReadInside(f: Bytes, pos: nat, n: nat)
    requires 0 < n && pos + n <= |f|
    ensures ReadAt(f, pos, n) == Chunk(Some(f[pos..pos + n]), pos + n)
  {
  }

  /** At `pos` the file holds `body` behind its two-digit size. */
  ghost predicate SizedAt(f: Bytes, pos: nat, body: Bytes)
  {
    && 10 <= |body| <= 99 && pos + 2 + |body| <= |f|
    && f[pos..pos + 2] == SizeText(|body|) && f[pos + 2..pos + 2 + |body|] == body
  }

  /** A size field that reads as `n` is followed by a read of `n` bytes. */
  lemma ReadSizedOf(f: Bytes, pos: nat, size: Bytes, n: nat)
    requires pos + 2 <= |f| && f[pos..pos + 2] == size && LengthValue(Some(size)) == n
    ensures ReadSized(f, pos) == Sized(ReadAt(f, pos + 2, n).data, ReadAt(f, pos + 2, n).next)
  {
    ReadInside(f, pos, 2);
  }

  /** A field framed with a two-digit size is read back whole. */
  lemma ReadTwoDigitSized(f: Bytes, pos: nat, body: Bytes)
    requires SizedAt(f, pos, body)
    ensures ReadSized(f, pos) == Sized(Some(body), pos + 2 + |body|)
  {
    TwoDigitSizeField(|body|);
    ReadSizedOf(f, pos, SizeText(|body|), |body|);
    ReadInside(f, pos + 2, |body|);
  }

  /** The IV and the salt sit at the front of the file. */
  lemma KeyFileFront(iv: Bytes, salt: Bytes, pp: Bytes, enc: Bytes)
    requires |iv| == IV_LEN && |salt| == SALT_LEN
    ensures var f := KeyFile(iv, salt, pp, enc);
      ReadAt(f, 0, IV_LEN) == Chunk(Some(iv), 16) && ReadAt(f, 16, SALT_LEN) == Chunk(Some(salt), 32)
  {
    var f := KeyFile(iv, salt, pp, enc);
    Pieces(iv, salt, SizeText(|pp|), pp, SizeText(|enc|), enc);
    ReadInside(f, 0, 16);
    ReadInside(f, 16, 16);
  }

  /** The passphrase, framed with a two-digit size, follows the salt. */
  lemma KeyFilePassPhrase(iv: Bytes, salt: Bytes, pp: Bytes, enc: Bytes)
    requires |iv| == IV_LEN && |salt| == SALT_LEN && 10 <= |pp| <= 99
    ensures ReadSized(KeyFile(iv, salt, pp, enc), 32) == Sized(Some(pp), 34 + |pp|)
  {
    TwoDigitSizeLength(|pp|);
    Pieces(iv, salt, SizeText(|pp|), pp, SizeText(|enc|), enc);
    ReadTwoDigitSized(KeyFile(iv, salt, pp, enc), 32, pp);
  }

  /** The last piece of a six-way concatenation, behind a two-digit size as
      the fifth piece, is framed there. */
  lemma LastPieceSized(f: Bytes, pos: nat, a: Bytes, b: Bytes, c: Bytes, d: Bytes, e: Bytes, g: Bytes)
    requires f == a + b + c + d + e + g && pos == |a| + |b| + |c| + |d|
    requires 10 <= |g| <= 99 && |e| == 2 && e == SizeText(|g|)
    ensures SizedAt(f, pos, g)
  {
    Pieces(a, b, c, d, e, g);
  }

  /** A last piece behind its two-digit size is read back whole, wherever
      it starts. */
  lemma LastPieceRead(f: Bytes, a: Bytes, b: Bytes, c: Bytes, d: Bytes, g: Bytes, pos: nat, end: nat)
    requires f == a + b + c + d + SizeText(|g|) + g
    requires pos == |a| + |b| + |c| + |d| && end == pos + 2 + |g| && 10 <= |g| <= 99
    ensures ReadSized(f, pos) == Sized(Some(g), end)
  {
    TwoDigitSizeLength(|g|);
    LastPieceSized(f, pos, a, b, c, d, SizeText(|g|), g);
    ReadTwoDigitSized(f, pos, g);
  }

  /** The four reads of `read_key` on `f`: the IV, the salt, and two
      size-framed fields, the second starting where the first ends. */
  ghost predicate FieldsAt(f: Bytes, iv: Bytes, salt: Bytes, pp: Bytes, enc: Bytes, ppEnd: nat, encEnd: nat)
  {
    && ReadAt(f, 0, IV_LEN) == Chunk(Some(iv), 16) && ReadAt(f, 16, SALT_LEN) == Chunk(Some(salt), 32)
    && ReadSized(f, 32) == Sized(Some(pp), ppEnd) && ReadSized(f, ppEnd) == Sized(Some(enc), encEnd)
  }

  /** With 16 bytes of IV, 16 of salt and two-digit sizes for passphrase and
      ciphertext, the four reads of `read_key` on the file `write_key` wrote
      give back exactly the four fields it framed. */
  lemma KeyFileReads(iv: Bytes, salt: Bytes, pp: Bytes, enc: Bytes)
    requires |iv| == IV_LEN && |salt| == SALT_LEN
    requires 10 <= |pp| <= 99 && 10 <= |enc| <= 99
    ensures FieldsAt(KeyFile(iv, salt, pp, enc), iv, salt, pp, enc, 34 + |pp|, 36 + |pp| + |enc|)
  {
    KeyFileFront(iv, salt, pp, enc);
    KeyFilePassPhrase(iv, salt, pp, enc);
    TwoDigitSizeLength(|pp|);
    LastPieceRead(KeyFile(iv, salt, pp, enc), iv, salt, SizeText(|pp|), pp, enc, 34 + |pp|, 36 + |pp| + |enc|);
  }

  /** `read_key` assigns what its four reads return, whatever the reading
      instance held before, and reports the key loaded. */
  lemma ReadKeyOfFields(st: State, f: Bytes, iv: Bytes, salt: Bytes, pp: Bytes, enc: Bytes, ppEnd: nat, encEnd: nat)
    requires FieldsAt(f, iv, salt, pp, enc, ppEnd, encEnd)
    ensures ReadKeyStep(st, Some(f))
         == Step(st.(iv := Some(iv), salt := Some(salt), passPhrase := Some(pp), encrypted := Some(enc)), Ok(Loaded))
  {
  }

  /** `read_key` stores the passphrase it read after the IV and the salt. */
  lemma ReadKeyPassPhrase(st: State, f: Bytes)
    requires ReadAt(f, 0, IV_LEN).next == 16 && ReadAt(f, 16, SALT_LEN).next == 32
    requires ReadSized(f, 32).Sized?
    ensures ReadKeyStep(st, Some(f)).st.passPhrase == ReadSized(f, 32).data
  {
  }

  /** On `f`, the four reads of `read_key` get as far as the ciphertext,
      which is read at `afterPassPhrase`. */
  ghost predicate ReachesCiphertext(f: Bytes, afterPassPhrase: nat)
  {
    && ReadAt(f, 0, IV_LEN).next == 16 && ReadAt(f, 16, SALT_LEN).next == 32
    && ReadSized(f, 32).Sized? && ReadSized(f, 32).next == afterPassPhrase
    && ReadSized(f, afterPassPhrase).Sized?
  }

  /** `read_key` stores the ciphertext it read after the passphrase. */
  lemma ReadKeyCiphertext(st: State, f: Bytes, afterPassPhrase: nat)
    requires ReachesCiphertext(f, afterPassPhrase)
    ensures ReadKeyStep(st, Some(f)).st.encrypted == ReadSized(f, afterPassPhrase).data
  {
  }

  /** A field whose size has three digits or more is cut short: `read(2)`
      takes the first two digits only, so at most 99 bytes are read. */
  lemma ShortSizeMisses(f: Bytes, pos: nat, body: Bytes)
    requires |body| >= 100 && pos + 2 <= |f|
    requires |SizeText(|body|)| >= 2 && f[pos..pos + 2] == SizeText(|body|)[..2]
    ensures ReadSized(f, pos).Sized? && ReadSized(f, pos).data != Some(body)
  {
    ReadInside(f, pos, 2);
    SizeFieldPrefixBound(|body|, f[pos..pos + 2]);
  }

  /** A size text has as many bytes as the number has digits. */
  lemma SizeTextLength(n: nat)
    ensures |SizeText(n)| == |RubyText.Digits(n)|
    ensures n >= 100 ==> |SizeText(n)| >= 3
  {
    assert |AsText(SizeText(n))| == |SizeText(n)|;
    RubyText.DigitsLength(n);
  }

  /** The first two bytes of the fifth piece of a six-way concatenation. */
  lemma FifthPieceStart(f: Bytes, pos: nat, a: Bytes, b: Bytes, c: Bytes, d: Bytes, e: Bytes, g: Bytes)
    requires f == a + b + c + d + e + g && pos == |a| + |b| + |c| + |d| && |e| >= 2
    ensures |f| >= pos + 2 && f[pos..pos + 2] == e[..2]
  {
    Pieces(a, b, c, d, e, g);
  }

  /** Where the passphrase size starts: right after the salt. */
  lemma PassPhraseSizeAt(iv: Bytes, salt: Bytes, pp: Bytes, enc: Bytes)
    requires |iv| == IV_LEN && |salt| == SALT_LEN && |SizeText(|pp|)| >= 2
    ensures var f := KeyFile(iv, salt, pp, enc);
      |f| >= 34 && f[32..34] == SizeText(|pp|)[..2]
  {
    FifthPieceStart(KeyFile(iv, salt, pp, enc), 32, [], iv, salt, [], SizeText(|pp|), pp + SizeText(|enc|) + enc);
    assert iv + salt + SizeText(|pp|) + pp + SizeText(|enc|) + enc
        == [] + iv + salt + [] + SizeText(|pp|) + (pp + SizeText(|enc|) + enc);
  }

  /** A passphrase of 100 bytes or more is not recovered: only the first two
      digits of its size are read. */
  lemma LongPassPhraseMisread(st: State, iv: Bytes, salt: Bytes, pp: Bytes, enc: Bytes)
    requires |iv| == IV_LEN && |salt| == SALT_LEN
    requires |pp| >= 100
    ensures ReadKeyStep(st, Some(KeyFile(iv, salt, pp, enc))).st.passPhrase != Some(pp)
  {
    KeyFileFront(iv, salt, pp, enc);
    LongPassPhraseSize(iv, salt, pp, enc);
    ReadKeyPassPhrase(st, KeyFile(iv, salt, pp, enc));
  }

  /** The size of a passphrase of 100 bytes or more is read short. */
  lemma LongPassPhraseSize(iv: Bytes, salt: Bytes, pp: Bytes, enc: Bytes)
    requires |iv| == IV_LEN && |salt| == SALT_LEN
    requires |pp| >= 100
    ensures var f := KeyFile(iv, salt, pp, enc);
      ReadSized(f, 32).Sized? && ReadSized(f, 32).data != Some(pp)
  {
    SizeTextLength(|pp|);
    PassPhraseSizeAt(iv, salt, pp, enc);
    ShortSizeMisses(KeyFile(iv, salt, pp, enc), 32, pp);
  }

  /** A ciphertext of 100 bytes or more is not recovered, even when the
      passphrase is: `read_key` reaches the ciphertext's size where it was
      written, but reads a field other than the ciphertext there (and
      `ReadKeyCiphertext` says that field is what it stores). */
  lemma LongCiphertextMisread(iv: Bytes, salt: Bytes, pp: Bytes, enc: Bytes)
    requires |iv| == IV_LEN && |salt| == SALT_LEN
    requires 10 <= |pp| <= 99 && |enc| >= 100
    ensures var f := KeyFile(iv, salt, pp, enc);
      ReachesCiphertext(f, 34 + |pp|) && ReadSized(f, 34 + |pp|).data != Some(enc)
  {
    KeyFileFront(iv, salt, pp, enc);
    KeyFilePassPhrase(iv, salt, pp, enc);
    LongCiphertextSize(iv, salt, pp, enc);
  }

  /** The size of a ciphertext of 100 bytes or more is read short. */
  lemma LongCiphertextSize(iv: Bytes, salt: Bytes, pp: Bytes, enc: Bytes)
    requires |iv| == IV_LEN && |salt| == SALT_LEN
    requires 10 <= |pp| <= 99 && |enc| >= 100
    ensures var f := KeyFile(iv, salt, pp, enc);
      ReadSized(f, 34 + |pp|).Sized? && ReadSized(f, 34 + |pp|).data != Some(enc)
  {
    TwoDigitSizeLength(|pp|);
    LongLastPiece(iv, salt, SizeText(|pp|), pp, enc, 34 + |pp|);
  }

  /** A last piece of 100 bytes or more behind its size is read short,
      wherever it starts. */
  lemma LongLastPiece(a: Bytes, b: Bytes, c: Bytes, d: Bytes, g: Bytes, pos: nat)
    requires pos == |a| + |b| + |c| + |d| && |g| >= 100
    ensures var f := a + b + c + d + SizeText(|g|) + g;
      ReadSized(f, pos).Sized? && ReadSized(f, pos).data != Some(g)
  {
    var f := a + b + c + d + SizeText(|g|) + g;
    SizeTextLength(|g|);
    FifthPieceStart(f, pos, a, b, c, d, SizeText(|g|), g);
    ShortSizeMisses(f, pos, g);
  }

  /** The file of the one-digit example below, field by field. */
  lemma OneDigitLayout(zeros: Bytes, pp: Bytes)
    requires zeros == seq(16, _ => 0) && pp == [65, 65, 65, 65, 65]
    ensures var f := KeyFile(zeros, zeros, pp, zeros);
      |f| == 56 && f[32..33] == [53] && f[33..38] == pp && f[38..40] == [49, 54]
  {
    assert SizeText(5) == [53] by { assert RubyText.Digits(5) == ['5']; }
    assert SizeText(16) == [49, 54] by {
      assert RubyText.Digits(16) == RubyText.Digits(1) + [RubyText.DigitChar(6)];
    }
    Pieces(zeros, zeros, [53], pp, [49, 54], zeros);
  }

  /** `5A` read as a size gives 5, so five bytes follow. */
  lemma OneDigitRead(f: Bytes)
    requires |f| == 56 && f[32..33] == [53] && f[33..38] == [65, 65, 65, 65, 65] && f[38..40] == [49, 54]
    ensures ReadSized(f, 32) == Sized(Some([65, 65, 65, 65, 49]), 39)
  {
    OneDigitBytes(f);
    FiveA();
    ReadSizedOf(f, 32, [53, 65], 5);
    ReadInside(f, 34, 5);
  }

  /** The two bytes read as the size, and the five read after them. */
  lemma OneDigitBytes(f: Bytes)
    requires |f| == 56 && f[32..33] == [53] && f[33..38] == [65, 65, 65, 65, 65] && f[38..40] == [49, 54]
    ensures f[32..34] == [53, 65] && f[34..39] == [65, 65, 65, 65, 49]
  {
    assert f[32] == f[32..33][0] == 53;
    assert forall i | 33 <= i < 38 :: f[i] == f[33..38][i - 33] == 65;
    assert f[38] == f[38..40][0] == 49;
  }

  /** `"5A".to_i` is 5. */
  lemma FiveA()
    ensures LengthValue(Some([53, 65])) == 5
  {
    FiveAText();
    FiveADigits();
    RubyText.SkipNoSpace("5A");
  }

  /** The bytes 53 and 65 are the text `5A`. */
  lemma FiveAText()
    ensures AsText([53, 65]) == "5A"
  {
    var t := AsText([53, 65]);
    assert t[0] == '5' && t[1] == 'A';
  }

  /** `to_i` takes the one digit of `5A`. */
  lemma FiveADigits()
    ensures RubyText.LeadingDigits("5A") == "5" && RubyText.DigitsValue("5") == 5
  {
    var t := "5A";
    assert RubyText.IsDigit(t[0]) && !RubyText.IsDigit(t[1]);
    assert RubyText.LeadingDigits(t[1..]) == [];
    var d := "5";
    assert d[..0] == [];
  }

  /** Example of a one-digit size misread: a five-byte passphrase `AAAAA`
      gives the length field `5A`, so the passphrase read back starts one byte
      late and takes the first digit of the ciphertext size with it. */
  lemma OneDigitPassPhraseMisread(st: State)
    ensures var zeros: Bytes := seq(16, _ => 0);
      var pp: Bytes := [65, 65, 65, 65, 65];
      ReadKeyStep(st, Some(KeyFile(zeros, zeros, pp, zeros))).st.passPhrase == Some([65, 65, 65, 65, 49])
  {
    var zeros: Bytes := seq(16, _ => 0);
    var pp: Bytes := [65, 65, 65, 65, 65];
    var f := KeyFile(zeros, zeros, pp, zeros);
    KeyFileFront(zeros, zeros, pp, zeros);
    OneDigitLayout(zeros, pp);
    OneDigitRead(f);
    ReadKeyPassPhrase(st, f);
  }

  /** Every passphrase of one to nine bytes is misread, whatever follows it:
      its size is written as one digit, `read(2)` takes that digit and the
      passphrase's first byte, and no passphrase survives the read that
      follows (see `ShortSizeRead`). */
  lemma ShortPassPhraseMisread(st: State, iv: Bytes, salt: Bytes, pp: Bytes, enc: Bytes)
    requires |iv| == IV_LEN && |salt| == SALT_LEN
    requires 1 <= |pp| <= 9 && |enc| >= 1
    ensures ReadKeyStep(st, Some(KeyFile(iv, salt, pp, enc))).st.passPhrase != Some(pp)
  {
    var f := KeyFile(iv, salt, pp, enc);
    KeyFileFront(iv, salt, pp, enc);
    ShortSizeRead(iv, salt, pp, enc);
    ReadKeyPassPhrase(st, f);
  }

  /** The read of a one-digit size and what follows it. When the first byte of
      the passphrase is a digit, the size reads as 10 or more and more bytes
      than the passphrase holds are read; otherwise the size reads right, but
      the bytes read start one late and end with the first digit of the
      ciphertext size, so they would be the passphrase only if the passphrase
      were all that digit, its first byte included. */
  lemma ShortSizeRead(iv: Bytes, salt: Bytes, pp: Bytes, enc: Bytes)
    requires |iv| == IV_LEN && |salt| == SALT_LEN
    requires 1 <= |pp| <= 9 && |enc| >= 1
    ensures var f := KeyFile(iv, salt, pp, enc);
      ReadSized(f, 32).Sized? && ReadSized(f, 32).data != Some(pp)
  {
    var f := KeyFile(iv, salt, pp, enc);
    ShortPassPhraseLayout(iv, salt, pp, enc);
    var size := f[32..34];
    var c0, c1 := RubyText.DigitChar(|pp|), pp[0] as int as char;
    assert AsText(size) == [c0, c1] by {
      assert AsText(size)[0] == AsText(SizeText(|pp|))[0] == RubyText.Digits(|pp|)[0];
    }
    RubyText.ToIOfDigitPair(c0, c1);
    var n := LengthValue(Some(size));
    ReadSizedOf(f, 32, size, n);
    if RubyText.IsDigit(c1) {
      assert n >= 10;
    } else {
      assert n == |pp|;
      ReadInside(f, 34, |pp|);
      var e0 := SizeText(|enc|)[0];
      assert RubyText.IsDigit(e0 as int as char) by {
        assert AsText(SizeText(|enc|))[0] == RubyText.Digits(|enc|)[0];
      }
      if pp[1..] + [e0] == pp {
        ShiftedRun(pp, e0);
        assert false;
      }
    }
  }

  /** Where a passphrase of one to nine bytes sits: its one-digit size, then
      the passphrase, then at least one digit of the ciphertext size. */
  lemma ShortPassPhraseLayout(iv: Bytes, salt: Bytes, pp: Bytes, enc: Bytes)
    requires |iv| == IV_LEN && |salt| == SALT_LEN
    requires 1 <= |pp| <= 9 && |enc| >= 1
    ensures var f := KeyFile(iv, salt, pp, enc);
      && |f| >= 35 + |pp|
      && f[32..34] == SizeText(|pp|) + [pp[0]]
      && f[34..34 + |pp|] == pp[1..] + [SizeText(|enc|)[0]]
  {
    var f := KeyFile(iv, salt, pp, enc);
    var c, e := SizeText(|pp|), SizeText(|enc|);
    SizeTextLength(|pp|);
    SizeTextLength(|enc|);
    assert |c| == 1;
    Pieces(iv, salt, c, pp, e, enc);
    var k := 33 + |pp|;
    assert f[32..34] == f[32..33] + f[33..34];
    assert f[33..34] == f[33..k][..1];
    assert f[34..k + 1] == f[34..k] + f[k..k + 1];
    assert f[34..k] == f[33..k][1..];
    assert f[k..k + 1] == f[k..k + |e|][..1];
  }

  /** A sequence that equals itself shifted one place left with `x` appended
      holds nothing but `x`. */
  lemma {:induction false} ShiftedRun(s: Bytes, x: byte)
    requires |s| >= 1 && s[1..] + [x] == s
    ensures forall i :: 0 <= i < |s| ==> s[i] == x
  {
    if |s| > 1 {
      var t := s[1..];
      forall i | 0 <= i < |t|
        ensures (t[1..] + [x])[i] == t[i]
      {
        assert (s[1..] + [x])[i + 1] == s[i + 1];
      }
      ShiftedRun(t, x);
      assert s[0] == (s[1..] + [x])[0];
    }
  }

  // ---------------------------------------------------------------------------
  // The round trip
  // ---------------------------------------------------------------------------

  /** The conditions under which a written pair comes back: both fields
      non-empty and free of `:`, the re-encoded passphrase framed with a
      two-digit size, and `user:pass` short enough (at most 95 bytes) for its
      ciphertext to have a two-digit size too. */
  ghost predicate RoundTripFits(st: State, p: Primitives, u: Bytes, pw: Bytes)
  {
    && st.username == Str(u) && st.password == Str(pw)
    && u != [] && pw != [] && COLON !in u && COLON !in pw
    && |u| + |pw| + 1 <= 95
    && KeyMaterialFits(st, p)
  }

  /** The writer holds a passphrase whose re-encoding has a two-digit size,
      and a 16-byte salt. */
  ghost predicate KeyMaterialFits(st: State, p: Primitives)
  {
    && st.passPhrase.Some? && st.salt.Some? && |st.salt.value| == SALT_LEN
    && 10 <= |p.encode64(p.decode64(st.passPhrase.value))| <= 99
  }

  /** What `write_creds` of a non-empty pair writes, once a passphrase and a
      salt are set: the fresh IV, the salt, the re-encoded passphrase and the
      encryption of `u + ":" + pw` under the key derived from the decoded
      passphrase. */
  lemma WrittenFile(st: State, freshIv: Bytes, p: Primitives, u: Bytes, pw: Bytes)
    requires st.passPhrase.Some? && st.salt.Some?
    requires st.username == Str(u) && st.password == Str(pw) && u != [] && pw != []
    ensures var w := WriteCredsStep(st, freshIv, p);
      var decoded := p.decode64(st.passPhrase.value);
      var key := p.pbkdf2(decoded, st.salt.value, ITERATIONS, KEY_LEN);
      var enc := p.encrypt(key, freshIv, u + [COLON] + pw);
      && w.result == Ok(KeyFile(freshIv, st.salt.value, p.encode64(decoded), enc))
      && w.st.key == Some(key)
  {
    EmptyFieldGuard(st, freshIv, p);
    PlaintextIsJoinedPair(st, freshIv, p);
  }

  /** A pair of 95 bytes or more together is not read back: its plaintext
      `u + ":" + pw` has at least 96 bytes, so its ciphertext has at least
      112, and `read_key` stores a field other than that ciphertext (even
      with a passphrase it reads back whole). */
  lemma LongPairMisread(st: State, freshIv: Bytes, reader: State, p: Primitives, u: Bytes, pw: Bytes)
    requires Lawful(p) && |freshIv| == IV_LEN
    requires KeyMaterialFits(st, p)
    requires st.username == Str(u) && st.password == Str(pw) && u != [] && pw != []
    requires |u| + |pw| >= 95
    ensures WriteCredsStep(st, freshIv, p).result.Ok?
    ensures var w := WriteCredsStep(st, freshIv, p);
      && |w.st.encrypted.value| >= 112
      && ReadKeyStep(reader, Some(w.result.value)).st.encrypted != w.st.encrypted
  {
    WrittenFile(st, freshIv, p, u, pw);
    PlaintextIsJoinedPair(st, freshIv, p);
    var decoded := p.decode64(st.passPhrase.value);
    var key := p.pbkdf2(decoded, st.salt.value, ITERATIONS, KEY_LEN);
    var enc := p.encrypt(key, freshIv, u + [COLON] + pw);
    LongCiphertext(p, key, freshIv, u + [COLON] + pw);
    var pp := p.encode64(decoded);
    var f := KeyFile(freshIv, st.salt.value, pp, enc);
    LongCiphertextMisread(freshIv, st.salt.value, pp, enc);
    ReadKeyCiphertext(reader, f, 34 + |pp|);
  }

  /** A plaintext of 96 bytes or more encrypts to 112 bytes or more. */
  lemma LongCiphertext(p: Primitives, key: Bytes, iv: Bytes, plain: Bytes)
    requires Lawful(p) && |plain| >= 96
    ensures |p.encrypt(key, iv, plain)| >= 112
  {
    var r := |p.encrypt(key, iv, plain)|;
    assert r == PaddedLength(|plain|);
    assert r == BLOCK_LEN * (|plain| / BLOCK_LEN + 1);
  }

  /** A plaintext of at most 95 bytes encrypts to 16 to 96 bytes: its size
      has two digits. */
  lemma ShortCiphertext(p: Primitives, key: Bytes, iv: Bytes, plain: Bytes)
    requires Lawful(p) && |key| == KEY_LEN && |iv| == IV_LEN && |plain| <= 95
    ensures 16 <= |p.encrypt(key, iv, plain)| <= 96
  {
    assert |p.encrypt(key, iv, plain)| == PaddedLength(|plain|);
  }

  /** The part of `get_creds` after `read_key`, on the four fields
      `write_creds` produced: the key derived again is the writer's key, the
      decryption gives the plaintext back, and it is split on `:`. */
  lemma LoadedDecrypts(r: State, p: Primitives, iv: Bytes, salt: Bytes, decoded: Bytes, plain: Bytes)
    requires Lawful(p) && |iv| == IV_LEN
    ensures var key := p.pbkdf2(decoded, salt, ITERATIONS, KEY_LEN);
      var loaded := r.(iv := Some(iv), salt := Some(salt), passPhrase := Some(p.encode64(decoded)),
                       encrypted := Some(p.encrypt(key, iv, plain)));
      var g := DecryptLoadedStep(loaded, p);
      var parts := RubyText.Split(plain, COLON);
      && g.result == Ok(Parts(parts))
      && g.st.username == Part(parts, 0) && g.st.password == Part(parts, 1)
      && g.st.key == Some(key)
  {
    var key := p.pbkdf2(decoded, salt, ITERATIONS, KEY_LEN);
    assert p.decode64(p.encode64(decoded)) == decoded;
    assert |key| == KEY_LEN;
    assert p.decrypt(key, iv, p.encrypt(key, iv, plain)) == Some(plain);
  }

  /** Any pair that fits the frame, `:` or not, is decrypted back to
      `u + ":" + pw` and split there, under the key the writer used. */
  lemma ReadBackPlaintext(st: State, freshIv: Bytes, reader: State, p: Primitives, u: Bytes, pw: Bytes)
    requires Lawful(p) && |freshIv| == IV_LEN
    requires KeyMaterialFits(st, p)
    requires st.username == Str(u) && st.password == Str(pw) && u != [] && pw != []
    requires |u| + |pw| <= 94
    ensures WriteCredsStep(st, freshIv, p).result.Ok?
    ensures var w := WriteCredsStep(st, freshIv, p);
      var g := GetCredsStep(reader, Some(w.result.value), p);
      var parts := RubyText.Split(u + [COLON] + pw, COLON);
      && g.result == Ok(Parts(parts))
      && g.st.username == Part(parts, 0) && g.st.password == Part(parts, 1)
      && g.st.key == w.st.key
  {
    WrittenFile(st, freshIv, p, u, pw);
    var decoded := p.decode64(st.passPhrase.value);
    var key := p.pbkdf2(decoded, st.salt.value, ITERATIONS, KEY_LEN);
    var enc := p.encrypt(key, freshIv, u + [COLON] + pw);
    ShortCiphertext(p, key, freshIv, u + [COLON] + pw);
    var pp := p.encode64(decoded);
    KeyFileReads(freshIv, st.salt.value, pp, enc);
    ReadKeyOfFields(reader, KeyFile(freshIv, st.salt.value, pp, enc), freshIv, st.salt.value, pp, enc, 34 + |pp|, 36 + |pp| + |enc|);
    LoadedDecrypts(reader, p, freshIv, st.salt.value, decoded, u + [COLON] + pw);
  }

  /** Round trip: after `write_creds`, `get_creds` on the written file (by this
      or any other instance) sets the username and password back to the written
      pair and returns exactly those two parts; both paths derive the same key,
      from the same decoded passphrase and salt. */
  lemma {:induction false} WriteThenGet(st: State, freshIv: Bytes, reader: State, p: Primitives, u: Bytes, pw: Bytes)
    requires Lawful(p)
    requires |freshIv| == IV_LEN
    requires RoundTripFits(st, p, u, pw)
    ensures WriteCredsStep(st, freshIv, p).result.Ok?
    ensures var w := WriteCredsStep(st, freshIv, p);
      var g := GetCredsStep(reader, Some(w.result.value), p);
      && g.result == Ok(Parts([u, pw]))
      && g.st.username == Str(u) && g.st.password == Str(pw)
      && g.st.key == w.st.key
      && g.st.key == Some(p.pbkdf2(p.decode64(st.passPhrase.value), st.salt.value, ITERATIONS, KEY_LEN))
  {
    ReadBackPlaintext(st, freshIv, reader, p, u, pw);
    WrittenFile(st, freshIv, p, u, pw);
    RubyText.SplitJoinedPair(u, pw, COLON);
  }

  /** The same round trip from a freshly constructed instance: its passphrase
      is `encode64(seed)`, so the condition is on that encoding alone. */
  lemma FreshInstanceRoundTrip(p: Primitives, u: Bytes, pw: Bytes, seed: Bytes, salt: Bytes,
                               freshIv: Bytes, reader: State)
    requires Lawful(p)
    requires |salt| == SALT_LEN && |freshIv| == IV_LEN
    requires u != [] && pw != [] && COLON !in u && COLON !in pw && |u| + |pw| <= 94
    requires 10 <= |p.encode64(seed)| <= 99
    ensures var w := WriteCredsStep(Initial(p, Str(u), Str(pw), seed, salt), freshIv, p);
      && w.result.Ok?
      && var g := GetCredsStep(reader, Some(w.result.value), p);
      && g.result == Ok(Parts([u, pw]))
      && g.st.username == Str(u) && g.st.password == Str(pw)
  {
    var st := Initial(p, Str(u), Str(pw), seed, salt);
    assert p.encode64(p.decode64(st.passPhrase.value)) == p.encode64(seed);
    WriteThenGet(st, freshIv, reader, p, u, pw);
  }

  /** `validate_creds` on the written file is true exactly for the written
      pair. */
  lemma ValidateAfterWrite(st: State, freshIv: Bytes, reader: State, p: Primitives, u: Bytes, pw: Bytes,
                           un: Bytes, cand: Bytes)
    requires Lawful(p)
    requires |freshIv| == IV_LEN
    requires RoundTripFits(st, p, u, pw)
    ensures WriteCredsStep(st, freshIv, p).result.Ok?
    ensures ValidateCredsStep(reader, Some(WriteCredsStep(st, freshIv, p).result.value), un, cand, p).result
         == Ok(un == u && cand == pw)
  {
    WriteThenGet(st, freshIv, reader, p, u, pw);
  }

  // ---------------------------------------------------------------------------
  // Failures
  // ---------------------------------------------------------------------------

  /** Only the decryption is guarded. When the file was read with a 16-byte IV,
      a passphrase and a salt, but the ciphertext is missing or does not
      decrypt, `get_creds` returns `[@username, false, false]`: the username
      is kept and only the password becomes `false`. */
  lemma DecryptFailureIsSentinel(st: State, file: Option<Bytes>, p: Primitives)
    requires var r := ReadKeyStep(st, file).st;
      && r.iv.Some? && |r.iv.value| == IV_LEN && r.passPhrase.Some? && r.salt.Some?
      && (r.encrypted.None? ||
          p.decrypt(p.pbkdf2(p.decode64(r.passPhrase.value), r.salt.value, ITERATIONS, KEY_LEN),
                    r.iv.value, r.encrypted.value).None?)
    ensures var g := GetCredsStep(st, file, p);
      g.result == Ok(Sentinel(st.username)) && g.st.username == st.username && g.st.password == False
  {
  }

  /** After a failed decryption `validate_creds` is false for every
      candidate pair. */
  lemma SentinelFailsValidation(st: State, file: Option<Bytes>, p: Primitives, un: Bytes, pw: Bytes)
    requires GetCredsStep(st, file, p).result.Ok? && GetCredsStep(st, file, p).result.value.Sentinel?
    ensures ValidateCredsStep(st, file, un, pw, p).result == Ok(false)
  {
  }

  /** Because the username survives a failed decryption and the password
      becomes `false`, a later `set_pw_str` on the same instance joins the
      kept username with the text `false`. */
  lemma JoinAfterSentinel(st: State, file: Option<Bytes>, p: Primitives)
    requires GetCredsStep(st, file, p).result.Ok? && GetCredsStep(st, file, p).result.value.Sentinel?
    requires st.username != Str([])
    ensures SetPwStrStep(GetCredsStep(st, file, p).st).result
         == Ok(JoinText(st.username) + [COLON] + [102, 97, 108, 115, 101])
  {
    var g := GetCredsStep(st, file, p).st;
    assert g.username == st.username && g.password == False;
    assert RubyText.Join([JoinText(g.username), JoinText(g.password)], COLON)
        == JoinText(g.username) + [COLON] + RubyText.Join([JoinText(g.password)], COLON);
  }

  /** A failure before the decryption is not caught: on an instance that has
      never written or read (no IV yet), a missing file makes `get_creds` raise
      on the nil IV. */
  lemma MissingFileRaises(p: Primitives, u: Value, pw: Value, seed: Bytes, salt: Bytes)
    ensures GetCredsStep(Initial(p, u, pw, seed, salt), None, p).result == Err(NilIv)
  {
  }

  // ---------------------------------------------------------------------------
  // The `:` ambiguity
  // ---------------------------------------------------------------------------

  /** A `:` inside the username is not read back: after the write and the
      read the username differs from the one written. */
  lemma ColonInUsernameMisread(st: State, freshIv: Bytes, reader: State, p: Primitives, u: Bytes, pw: Bytes)
    requires Lawful(p) && |freshIv| == IV_LEN
    requires KeyMaterialFits(st, p)
    requires st.username == Str(u) && st.password == Str(pw) && u != [] && pw != []
    requires COLON in u && |u| + |pw| <= 94
    ensures WriteCredsStep(st, freshIv, p).result.Ok?
    ensures GetCredsStep(reader, Some(WriteCredsStep(st, freshIv, p).result.value), p).st.username != Str(u)
  {
    ReadBackPlaintext(st, freshIv, reader, p, u, pw);
    RubyText.SplitMisreadsFirst(u, pw, COLON);
  }

  /** A `:` inside the password (with a clean username) is not read back
      either. */
  lemma ColonInPasswordMisread(st: State, freshIv: Bytes, reader: State, p: Primitives, u: Bytes, pw: Bytes)
    requires Lawful(p) && |freshIv| == IV_LEN
    requires KeyMaterialFits(st, p)
    requires st.username == Str(u) && st.password == Str(pw) && u != [] && pw != []
    requires COLON !in u && COLON in pw && |u| + |pw| <= 94
    ensures WriteCredsStep(st, freshIv, p).result.Ok?
    ensures GetCredsStep(reader, Some(WriteCredsStep(st, freshIv, p).result.value), p).st.password != Str(pw)
  {
    ReadBackPlaintext(st, freshIv, reader, p, u, pw);
    RubyText.SplitMisreadsSecond(u, pw, COLON);
  }

  /** Example: the pair `a:b` / `c` comes back as username `a` and password `b`; the
      `c` is lost. */
  lemma ColonExample()
    ensures var parts := RubyText.Split([97, COLON, 98] + [COLON] + [99], COLON);
      parts == [[97], [98], [99]] && Part(parts, 0) == Str([97]) && Part(parts, 1) == Str([98])
  {
    var s: Bytes := [97, COLON, 98] + [COLON] + [99];
    RubyText.FieldsAfterHead([97], COLON, [98, COLON, 99]);
    RubyText.FieldsAfterHead([98], COLON, [99]);
    RubyText.FieldsWithoutSep([99], COLON);
    assert s == [97] + [COLON] + [98, COLON, 99];
    assert [98, COLON, 99] == [98] + [COLON] + [99];
  }
}
