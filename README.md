# Credential vault and CSV helpers of the GitHub stats tool

This project models in Dafny the core of a Ruby tool that collects an
organisation's GitHub data into CSV files and shows them on a Jekyll site.

- **The credential vault** (`lib/creds.rb`, class `Creds`) is the main part.
  - `write_creds` joins the username and password into `user:pass`.
  - It derives a key with PBKDF2-HMAC-SHA1 from a Base64 passphrase and a
    16-byte salt, then encrypts the pair with AES-128-CBC.
  - `write_key` frames the IV, the salt, the passphrase and the ciphertext
    into the `.creds` file. Each variable-length field is preceded by its
    length as decimal text.
  - `get_creds` reads the file back field by field, reading each length as
    exactly two characters. It decrypts, and splits the plaintext on `:`.
  - `validate_creds` compares a candidate pair with what came back.

  The class is modelled as a Dafny `class Creds` whose fields are the Ruby
  instance variables. Each method updates them in the source's order. Every
  method is proved equal to a transition function on a `State` snapshot, and
  the lemmas are stated over those functions:
  - the round trip;
  - the two-digit framing limits;
  - the `:` ambiguity;
  - the empty-field guard;
  - the decryption-failure sentinel.

  Ruby exceptions become `Err` outcomes that carry the state the object was
  left in. AES, PBKDF2 and Base64 are function values. The predicate
  `Crypto.Lawful` states what the vault relies on: decryption inverts
  encryption, PKCS#7 padding lengths (section 6.3 of RFC 5652), the PBKDF2 key
  length, and Base64 decoding inverts encoding.
- **`GitApi` helpers** (`lib/git_api.rb`):
  - the `header_row` loop, as a method with its invariant;
  - `border_size` and the banner built from it;
  - the String and scalar branches of `create_csv_row`;
  - the `display` dispatch.
- **The `display_heading` Liquid tag** (`_plugins/display_header.rb`): a
  `Display` class whose `Render` method title-cases the `_`-separated pieces
  of its text, leaving stop words as they are, and overwrites the text.
- **The watcher sort script** (`scripts/sort_stats_by_watchers.rb`, lines
  10–18):
  - it keeps the header row first;
  - it sorts the other rows by the fifth column, descending;
  - it keeps the first row per repository name;
  - it appends each row's CSV line.

Module `RubyText` holds the Ruby `String` semantics these rely on:
- `split` with one separator, which drops trailing empty fields;
- `join`, `to_s` and `to_i`;
- `strip`, which removes NUL and ASCII whitespace;
- ASCII `downcase` and `capitalize`.

## Model

| member | source | states |
|---|---|---|
| Vault.Creds.constructor | lib/creds.rb:29-41 | `nil` username or password becomes `""`; the passphrase is `encode64` of the seed; the salt is the fresh 16 bytes; IV, key and ciphertext are unset |
| Vault.Creds.SetPwStr | lib/creds.rb:98-104 | raises exactly when the username or password is `""`; otherwise `@pw_str` is `username + ":" + password` |
| Vault.Creds.HmacSha1Key | lib/creds.rb:145-147 | `@key` becomes PBKDF2 of the current passphrase and salt, with 20000 iterations and the recorded key length; a nil passphrase, salt or key length raises |
| Vault.Creds.WriteKey | lib/creds.rb:128-139 | the written file is IV, salt, decimal length of the passphrase, passphrase, decimal length of the ciphertext, ciphertext |
| Vault.Creds.ReadKey | lib/creds.rb:110-123 | reads 16 IV bytes, 16 salt bytes, then two sized fields whose lengths are `to_i` of two characters; a missing file assigns nothing; a negative length stops the reads midway; the fields change exactly as `ReadKeyStep` says |
| Vault.Creds.WriteCreds | lib/creds.rb:80-92 | the fields after the guard, IV, decode, key derivation, encryption, re-encode and write; when the guard raises, nothing changes |
| Vault.Creds.GetCreds | lib/creds.rb:46-61 | `read_key`, then decryption of what was loaded; on a failed decryption it returns `[@username, false, false]`, keeping `@username` and setting only `@password` to `false` |
| Vault.Creds.DecryptLoaded | lib/creds.rb:48-60 | a nil or wrong-length IV raises; the decoded passphrase derives the key; failed decryption sets only `@password` to `false` and returns the kept username; otherwise the split plaintext's first two parts become username and password |
| Vault.Creds.ValidateCreds | lib/creds.rb:68-75 | true exactly when, after `get_creds`, `@username == un` and `@password == pw` |
| Vault.SizeText | lib/creds.rb:129-136 | the length field is the decimal text of the size |
| Vault.ReadAt | lib/creds.rb:113-118 | `IO#read(n)`: nil exactly at end of file for `n > 0`; otherwise at most `n` bytes, and the position advances by what was read |
| Crypto.PaddedLength | lib/creds.rb:88-89 | PKCS#7 ciphertext length: a whole number of blocks, 1 to 16 bytes longer than the plaintext |
| Vault.Initial | lib/creds.rb:29-41 | definition: the state `initialize` builds, with `nil` username or password made `""`, `@pw_str` empty, the passphrase `encode64` of the seed, the fresh salt, and IV, key length, key and ciphertext unset |
| Vault.SetPwStrStep | lib/creds.rb:98-104 | definition: raise on an empty username or password, otherwise store and return their `join(":")`; `EmptyFieldGuard` and `PlaintextIsJoinedPair` state what this gives |
| Vault.DeriveKeyStep | lib/creds.rb:145-147 | definition: a nil passphrase, salt or key length raises; otherwise `@key` becomes PBKDF2 of them with 20000 iterations, and nothing else changes |
| Vault.KeyFile | lib/creds.rb:128-139 | definition: the six writes of `write_key` back to back, each size as its decimal text |
| Vault.LengthValue | lib/creds.rb:115-118 | definition: `pl.to_i` of a two-byte length field; the nil a read at end of file gives reads as 0 |
| Vault.ReadSized | lib/creds.rb:115-118 | definition: two bytes of size, then `read` of that many bytes; a negative size is the error `read` raises |
| Vault.ReadKeyStep | lib/creds.rb:110-123 | definition: the four reads of `read_key`, each assigned as it completes; a missing file assigns nothing; a negative size ends the reads; its properties are `ReadKeyKeepsCredentials`, `ReadKeyOfFields`, `ReadKeyPassPhrase` and `ReadKeyCiphertext` |
| Vault.WriteCredsStep | lib/creds.rb:80-92 | definition: `set_pw_str`, fresh IV, decode, key length 16, key derivation, encryption, re-encode, and the bytes `write_key` writes; its properties are `EmptyFieldGuard`, `PlaintextIsJoinedPair`, `PassPhraseRestored` and `WrittenFile` |
| Vault.GetCredsStep | lib/creds.rb:46-61 | definition: `read_key`, then `DecryptLoadedStep` on the state it leaves; its properties are `WriteThenGet`, `DecryptFailureIsSentinel` and `MissingFileRaises` |
| Vault.DecryptLoadedStep | lib/creds.rb:48-60 | definition: nil or wrong-length IV raises, key length 16, decode, key derivation, decryption; a failed decryption gives the sentinel with only `@password` set to `false`; otherwise the first two parts of the split plaintext are assigned |
| Vault.ValidateCredsStep | lib/creds.rb:68-75 | definition: `get_creds`, then true exactly when `@username` and `@password` equal the candidates; its properties are `ValidateAfterWrite` and `SentinelFailsValidation` |
| Vault.ReadKeyKeepsCredentials | lib/creds.rb:110-123 | `read_key` assigns only key material: username, password and the joined pair stay as they were |
| Vault.SentinelKeepsUsername | lib/creds.rb:54-59 | on a failed decryption only `@password` becomes `false`, and the returned username is the one kept |
| VaultProperties.EmptyFieldGuard | lib/creds.rb:98-104 | `write_creds` raises exactly when a field is `""`, and then leaves every field as it was |
| VaultProperties.PlaintextIsJoinedPair | lib/creds.rb:80-92 | the encrypted plaintext is `username ":" password`, under the fresh IV; the written file frames exactly those fields |
| VaultProperties.PassPhraseRestored | lib/creds.rb:84-90 | when the passphrase starts encoded, `write_creds` leaves it unchanged, and the key derives from the decoded form |
| VaultProperties.TwoDigitSizeField | lib/creds.rb:115-116 | a two-digit size is written as two characters that `to_i` reads back as the size |
| VaultProperties.SizeFieldPrefixBound | lib/creds.rb:115-117 | any two-character prefix of a size field reads as a length from 0 to 99 |
| VaultProperties.KeyFileReads | lib/creds.rb:113-118 | with both lengths from 10 to 99, the reads recover IV, salt, passphrase and ciphertext at their offsets |
| VaultProperties.ReadKeyOfFields | lib/creds.rb:110-123 | when the four reads recover the fields, `read_key` loads exactly those four and nothing else |
| VaultProperties.ReadKeyPassPhrase | lib/creds.rb:113-116 | `@pass_phrase` is whatever the sized read at offset 32 returns |
| VaultProperties.ReadKeyCiphertext | lib/creds.rb:117-118 | `@encrypted` is whatever the sized read after the passphrase returns |
| VaultProperties.LongPassPhraseMisread | lib/creds.rb:115-116 | a passphrase of 100 bytes or more is not read back |
| VaultProperties.LongCiphertextMisread | lib/creds.rb:117-118 | a ciphertext of 100 bytes or more is not read back, although the reads reach it |
| VaultProperties.OneDigitPassPhraseMisread | lib/creds.rb:115-116 | example of `ShortPassPhraseMisread`: the 5-byte passphrase `AAAAA` is read back as its last 4 bytes and the first digit of the ciphertext size |
| VaultProperties.ShortPassPhraseMisread | lib/creds.rb:113-116 | every passphrase of 1 to 9 bytes, followed by any non-empty ciphertext, is not read back into `@pass_phrase` |
| VaultProperties.ShortSizeRead | lib/creds.rb:115-116 | the sized read at offset 32 of such a file completes, and returns bytes other than the passphrase |
| RubyText.ToIOfDigitPair | lib/creds.rb:115-116 | `to_i` of two characters starting with a digit reads both when the second is a digit, and the first alone otherwise |
| VaultProperties.WrittenFile | lib/creds.rb:80-92 | once a passphrase and a salt are set, the file written for any non-empty pair frames the fresh IV, the salt, the re-encoded passphrase and the encrypted `u:pw`, and `@key` is the derived key |
| VaultProperties.LongPairMisread | lib/creds.rb:115-118 | a pair of 95 bytes or more together encrypts to 112 bytes or more, and `read_key` on the written file stores a ciphertext other than the one written |
| VaultProperties.ShortCiphertext | lib/creds.rb:88-89 | a plaintext of at most 95 bytes encrypts to 16 to 96 bytes, inside the two-digit framing |
| VaultProperties.LoadedDecrypts | lib/creds.rb:48-60 | decrypting fields written under the same passphrase and salt gives the plaintext's split parts and the same key |
| VaultProperties.ReadBackPlaintext | lib/creds.rb:46-61 | `get_creds` on the written file derives the writer's key and yields the split of `u:pw` |
| VaultProperties.WriteThenGet | lib/creds.rb:46-61 | round trip: a pair without `:` whose lengths fit comes back as the same pair, under the same key |
| VaultProperties.FreshInstanceRoundTrip | lib/creds.rb:29-41 | a freshly constructed instance writes a file that any instance reads back as the same pair |
| VaultProperties.ValidateAfterWrite | lib/creds.rb:68-75 | after a write, `validate_creds(un, pw)` is true exactly for the written pair |
| VaultProperties.DecryptFailureIsSentinel | lib/creds.rb:54-59 | a failed decryption, or a nil ciphertext, returns `[@username, false, false]` instead of raising: `@username` is kept, `@password` becomes `false` |
| VaultProperties.JoinAfterSentinel | lib/creds.rb:58 | after a failed decryption, a later `set_pw_str` on the same instance joins the kept username with the text `false` |
| VaultProperties.SentinelFailsValidation | lib/creds.rb:68-75 | after a failed decryption, validation is false for any pair of strings, since `@password` is `false` |
| VaultProperties.MissingFileRaises | lib/creds.rb:47-49 | on an instance that has not read or written yet, a missing file makes `read_key` swallow the error, and `@decryptor.iv = nil` then raises outside the rescue |
| VaultProperties.ColonInUsernameMisread | lib/creds.rb:60 | a username containing `:` does not come back |
| VaultProperties.ColonInPasswordMisread | lib/creds.rb:60 | a password containing `:` (in a username without one) does not come back |
| VaultProperties.ColonExample | lib/creds.rb:60 | example of `ColonInUsernameMisread`: `a:b` joined with `c` splits into three parts; `a` and `b` are assigned |
| RubyText.Split | lib/creds.rb:60 | definition: `Fields` with the trailing empty fields dropped, as `split(":")` does; its properties are `SplitJoinedPair`, `SplitMisreadsFirst` and `SplitMisreadsSecond` |
| RubyText.ToI | lib/creds.rb:115-118 | definition: base-10 `to_i` skips leading whitespace, takes an optional sign, skips a `0d` or `0D` prefix, then takes the leading digits (a single `_` between digits skipped), and reads 0 when there are none; its properties are `IntToSRoundTrip`, `ToIOfTwoChars`, `ToIOfDigitPair` and `ToIOfDecimalPrefix` |
| RubyText.ToIOfDecimalPrefix | scripts/sort_stats_by_watchers.rb:13 | the `0d` prefix is skipped behind a sign or none: a cell `0d12` reads as 12 and `-0D7` as -7 |
| RubyText.Strip | lib/git_api.rb:175 | definition: `rstrip` of `lstrip`; its properties are `StripSpec` and `StripEnds` |
| RubyText.JoinFields | lib/creds.rb:60 | joining `Fields(s, sep)`, every field including trailing empty ones, with the separator restores `s` (`split` drops the trailing empty fields, so `"a:".split(":")` joins back to `a`) |
| RubyText.SplitJoinedPair | lib/creds.rb:102 | `[a, b].join(sep).split(sep) == [a, b]` when neither holds `sep` and `b` is non-empty |
| RubyText.SplitMisreadsFirst | lib/creds.rb:60 | a first part holding the separator is not the first field |
| RubyText.SplitMisreadsSecond | lib/creds.rb:60 | a second part holding the separator is not the second field |
| RubyText.IntToSRoundTrip | lib/creds.rb:134-136 | `to_i` reads back what `to_s` writes, for every integer |
| RubyText.ToIOfTwoChars | lib/creds.rb:115-117 | `to_i` of at most two characters lies between -9 and 99 |
| RubyText.DigitsLength | lib/creds.rb:115-118 | the decimal text is one character exactly below 10 and three or more from 100 |
| RubyText.StripSpec | lib/git_api.rb:175 | `strip` returns a contiguous piece of the text, with only NUL and whitespace cut on either side |
| RubyText.StripEnds | lib/git_api.rb:175 | the stripped text is empty, or neither starts nor ends with NUL or whitespace |
| RubyText.Capitalize | _plugins/display_header.rb:15 | first character upcased, the rest downcased, length kept |
| RubyText.Downcase | lib/git_api.rb:159 | every ASCII capital lowered, nothing else changed |
| GitApi.KeepAlnumSpace | lib/git_api.rb:159 | the result holds only ASCII letters, digits and spaces, each taken from the input |
| GitApi.KeepAlnumSpaceCounts | lib/git_api.rb:159 | the result holds each ASCII letter, digit and space exactly as often as the input does, and no other character |
| GitApi.SpaceToUnderscore | lib/git_api.rb:159 | each space becomes `_`, everything else stays |
| GitApi.Normalize | lib/git_api.rb:159 | a normalised heading holds only lower-case letters, digits and `_` |
| GitApi.NormalizeByCharacter | lib/git_api.rb:159 | downcase, then filter, then replace equals the per-character mapping |
| GitApi.HeaderText | lib/git_api.rb:155-163 | definition: the normalised headings joined by `,`, then `"\n"`; `HeaderRow` proves the loop equal to it, and `EmptyHeader`, `HeaderCommas` and `HeaderCharset` state its shape |
| GitApi.Chop | lib/git_api.rb:162 | `chop` keeps a prefix: the empty string stays empty, a final `"\r\n"` goes as a whole, and otherwise exactly the last character goes |
| GitApi.HeaderRow | lib/git_api.rb:155-163 | the loop's string, chopped and ended by `"\n"`, is the header text of the normalised headings |
| GitApi.TerminatedIsJoined | lib/git_api.rb:158-160 | the loop's string is the headings joined by `,`, plus one trailing comma |
| GitApi.ChopComma | lib/git_api.rb:162 | `chop` removes exactly the trailing comma |
| GitApi.EmptyHeader | lib/git_api.rb:155-162 | `header_row([])` is `"\n"` |
| GitApi.HeaderCommas | lib/git_api.rb:155-162 | n headings give exactly n−1 commas |
| GitApi.HeaderCharset | lib/git_api.rb:155-162 | the row holds only lower-case letters, digits, `_` and `,`, then one final newline |
| GitApi.BorderSize | lib/git_api.rb:424-427 | `2·border + title + 2` is 79 or 80; the border is non-negative exactly for titles up to 78 characters |
| GitApi.Banner | lib/git_api.rb:200 | `"#" * border` raises exactly for titles longer than 78 characters |
| GitApi.BannerWidth | lib/git_api.rb:200-201 | the banner is 79 or 80 columns: the title centred between single spaces and runs of `#` |
| GitApi.CreateCsvRow | lib/git_api.rb:169-178 | the text ends in `"\n"`; the value of each branch is stated by `CsvRowOfText` and `CsvRowOfInt` |
| GitApi.CsvRowOfText | lib/git_api.rb:174-175 | a String's line is the string stripped of its surrounding NUL and whitespace |
| GitApi.CsvRowOfInt | lib/git_api.rb:176-177 | an Integer's line reads back as that integer |
| GitApi.Display | lib/git_api.rb:74-82 | `"long"` picks the long view, `"short"` the short view, anything else the medium view |
| DisplayHeader.Word | _plugins/display_header.rb:12-15 | a stop word is kept exactly; any other piece is capitalised; the length is kept |
| DisplayHeader.Words | _plugins/display_header.rb:11-17 | every piece is shown, in order |
| DisplayHeader.Display.constructor | _plugins/display_header.rb:4-7 | the tag keeps its markup as its text |
| DisplayHeader.Display.Render | _plugins/display_header.rb:8-19 | returns each `_` piece shown and followed by one space, and stores that as the new text |
| DisplayHeader.RenderLength | _plugins/display_header.rb:11-17 | the heading's length is the pieces' total length plus one per piece |
| DisplayHeader.RenderFields | _plugins/display_header.rb:9-17 | when no `_` piece of the text holds a space, the heading read back on spaces is the shown pieces in order, each followed by exactly one space |
| DisplayHeader.RenderHasNoUnderscore | _plugins/display_header.rb:9 | no underscore survives in the heading |
| DisplayHeader.RenderAB | _plugins/display_header.rb:8-18 | example of `RenderFields`: `a_b` renders as `a B ` |
| DisplayHeader.RenderTwice | _plugins/display_header.rb:18 | example of `Display.Render` overwriting `@text`: a second render of `a_b` gives `A b  ` |
| SortStats.Watchers | scripts/sort_stats_by_watchers.rb:13 | definition: `a[4].to_i`, and 0 for a row without a fifth cell (`nil.to_i`) |
| SortStats.Key | scripts/sort_stats_by_watchers.rb:14 | definition: `a.first`, nil for an empty row |
| SortStats.Uniq | scripts/sort_stats_by_watchers.rb:14 | definition: `uniq!(&:first)`, keeping a row exactly when no earlier row has its name; its properties are `UniqKeys`, `UniqFirst`, `UniqOrder` and `UniqDistinct` |
| SortStats.SortedStats | scripts/sort_stats_by_watchers.rb:13-14 | definition: the descending sort by watchers, then `uniq!`; its properties are `SortedStatsProperties` |
| SortStats.CsvText | scripts/sort_stats_by_watchers.rb:16-18 | definition: the `to_csv` lines of the rows, concatenated in order; its properties are `AppendLines` and `CsvTextCons` |
| SortStats.SortDesc | scripts/sort_stats_by_watchers.rb:13 | the rows, permuted, with non-increasing counts |
| SortStats.FirstIndex | scripts/sort_stats_by_watchers.rb:14 | the first row that carries a name |
| SortStats.UniqKeys | scripts/sort_stats_by_watchers.rb:14 | `uniq!` keeps every repository name |
| SortStats.UniqFirst | scripts/sort_stats_by_watchers.rb:14 | each kept row is the first row with its name |
| SortStats.UniqOrder | scripts/sort_stats_by_watchers.rb:14 | kept rows stay in the order of their first occurrences |
| SortStats.UniqDistinct | scripts/sort_stats_by_watchers.rb:14 | no two kept rows share a name |
| SortStats.UniqSorted | scripts/sort_stats_by_watchers.rb:13-14 | deduplicating a descending table keeps it descending |
| SortStats.UniqKeepsMost | scripts/sort_stats_by_watchers.rb:13-14 | each kept row has the largest count among the rows with its name |
| SortStats.SortedStatsProperties | scripts/sort_stats_by_watchers.rb:13-14 | the data rows: by non-increasing watchers, one per name, every name kept, each an input row with its name's largest count |
| SortStats.AppendLines | scripts/sort_stats_by_watchers.rb:16-18 | each row's CSV line is appended, in order |
| SortStats.SortStatsByWatchers | scripts/sort_stats_by_watchers.rb:10-18 | the header line first, unchanged, then the sorted and deduplicated rows; an empty table raises |
| SortStats.CsvTextCons | scripts/sort_stats_by_watchers.rb:16-18 | the first data row's line comes first |

## Left out

- AES-128-CBC, PBKDF2-HMAC-SHA1 and Base64 are function values, constrained
  only by `Crypto.Lawful`. `OpenSSL::Random` and `random_iv` become parameters
  (the fresh salt and IV). The `whoami` and `Time.new` seed of the passphrase
  is a parameter of the constructor.
- The `.creds` file is a byte sequence: `read_key` takes its contents, or
  None when it is missing, and `write_key` returns the bytes it would write.
  `File.new`, `close` and the `puts` in `read_key`'s rescue are not modelled.
- Ruby's `Excection` call on lib/creds.rb:100 raises a NoMethodError, not the
  intended exception. The model only records that an exception is raised.
- `@decryptor`/`@encryptor` are not objects of the model. Their `key_len` is
  the constant 16, and `update`/`final` are the one `decrypt` or `encrypt`
  function.
- Vault.Creds.DecryptLoaded: this helper method holds the tail of `get_creds`
  after `read_key`. `GetCreds` calls it, so together they are the Ruby method.
- LongCiphertextMisread: stated on the file's sized read. `ReadKeyCiphertext`
  links that read to `@encrypted`.
- On an instance that has not read or written yet, a missing file does not
  make `validate_creds` false. `read_key` swallows the error, and
  `@decryptor.iv = nil` then raises (`MissingFileRaises`). After a write on
  the same instance, the written fields are still loaded and are decrypted.
- `split(":")` splits on every `:`, and the first two parts are assigned.
- Vault.Creds.DecryptLoaded: when `final` fails after `update` succeeded,
  Ruby leaves the partial output of `update` in `@decrypted`. The model
  leaves `@decrypted` as it was, and nothing reads it on that path.
- Vault.Creds.ValidateCreds: strings are byte sequences. Ruby's string
  encodings and its encoding-aware `String#==` are not modelled. The
  decrypted parts are binary (ASCII-8BIT) strings. Ruby compares them false
  with a UTF-8 candidate that holds non-ASCII bytes, while the model compares
  bytes.
- VaultProperties.ValidateAfterWrite: for the same reason, it holds in Ruby
  only for ASCII credentials, or for candidates that are binary strings too.
  For a non-ASCII UTF-8 candidate, Ruby's `validate_creds` returns false.
- CreateCsvRow: its own contract states only the final newline. The value of
  the String branch is stated by `CsvRowOfText`, and that of an Integer by
  `CsvRowOfInt`. `true`, `false` and `nil` give `"true\n"`, `"false\n"` and
  `"\n"`, with no lemma of their own. A String that holds a newline gives
  more than one line.
- When several arguments of `pbkdf2_hmac_sha1` are nil, which of them the
  model reports is its own choice. Ruby raises a TypeError in every such
  case.
- `create_csv_row` on an Array or Hash (`to_csv`), the CSV quoting of
  `Array#to_csv` and `CSV.read` are library code. The script's `to_csv` is a
  parameter, and rows are sequences of cells.
- `downcase`, `capitalize` and `strip` are modelled for ASCII only. Unicode
  case mapping is not.
- SortStats.SortDesc: an insertion sort that places a row before the rows
  whose count it equals. Ruby's `sort!` is not stable, so its order among
  rows with equal counts is not modelled. Its contract states only what every
  descending sort guarantees: non-increasing counts and the same rows.
- `sort!`, `uniq!` and `shift` are modelled on sequence values that the
  script's method reassigns, not as in-place updates of one array.
- The HTTP calls, pagination, `printf`/`puts` output, `write_csv`, the
  Liquid `register_tag` call, scripts/git_client.rb and
  _plugins/update_time.rb are not part of this model.
