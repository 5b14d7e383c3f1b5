# Venya: verified models of the key-custody core

Venya is a secret manager. This project models the code that carries its heaviest promises and proves
those promises for every input, every run or every reachable state. One module stands for one source
file or component.

| module | what it models |
|---|---|
| `GF256`, `CarrylessProduct`, `Polynomial` | the byte field of section 4.2 of FIPS 197, and polynomials over it |
| `Shamir`, `ShamirTheorems` | secret sharing: `split`, `combine`, and what they are for |
| `Sequences`, `ByteArrays`, `SecretHolders` | repeated elements, the erased plaintext buffer, and the holder that owns it |
| `FileSystems`, `AtRest`, `Backup`, `Custody` | the CA key at rest, its backup envelopes, and the split, export and restore commands |
| `Transport` | the CLI's cached, re-confirmed dial transport |
| `PythonInt`, `Serial` | reading and writing integers; canonical certificate serials |
| `Base64Id` | the two-alphabet base64 reader and the two encoders |
| `Rekey` | the right-to-left manifest re-keyer |
| `Redact` | argv redaction for the support log |
| `BlankLines`, `Splice` | the blank-line loop and the sentinel-delimited splice |

`dafny verify dfyconfig.toml` checks everything.

## How the model is built

* Loops, buffers, files and objects of the source are methods and classes here (`Shamir.Split`,
  `ByteArrays.ByteArray`, `SecretHolders.SecretHolder`, `FileSystems.FileSystem`,
  `Transport.APIClient`, ...). Each is proved against a function of its inputs or of the old state,
  and the theorems are about that function.
* No field law is assumed. The shift-and-reduce loop is shown to be bilinear over XOR, so that two
  additive maps agree everywhere once they agree on the eight monomials. Commutativity, associativity
  and the order of the Frobenius map follow, and with them the inverse law for the a^254 loop.
  `CarrylessProduct.MulMeaning` pins the loop to polynomial multiplication modulo 0x11B.
* The file system keeps a ghost history of every state the files went through. "At every intermediate
  step" is a statement about each entry of it.
* The outside world is a parameter: random bytes (each may fail to arrive), typed passphrases, failing
  system calls, an interrupt, the contents a file has each time it is read, the answer of the memory
  pin, the page size.

## What is assumed

* The first four bytes of the hash are some function of the secret (`Shamir.Hash`).
* PEM codec (`AtRest.Pem.Lawful`): parsing undoes plain serialisation; an encrypted key does not parse
  without a passphrase and opens with its own. An existing file that does not parse as plaintext is
  opened with the passphrase by the same codec.
* Ciphers (`Backup.Ciphers.Lawful`): opening undoes sealing under the same key and nonce, and
  whatever opens is 16 bytes longer than its message; CBC decryption undoes encryption on whole blocks and keeps the length.
  Nothing is assumed of wrong keys. `AtRest.LawfulPem` and
  `Backup.LawfulCiphers` show that codecs and ciphers with these laws exist.
* Temporary names are new when they are made.

## Where the code does less than it is said to do

Each of these is the code as it is, with the exact condition proved.

* **Restore is all-or-nothing, with one exception.** An interrupt that arrives after the rename makes
  the command fail over a finished write (`AtRest.FailureLeavesFiles`,
  `FileSystems.AtomicWrite`). An encrypted target unwraps to the very bytes that were restored exactly
  when those are in the library's own serialisation; it always unwraps to the same key
  (`AtRest.EncryptedStaysEncrypted`).
* **The dial transport presents the bytes on disk exactly when the file was not rewritten between the
  two reads of the dial that built it** (`Transport.PresentsDiskExactly`): the certificate is first
  fingerprinted and then loaded. A rewrite between the two, put back afterwards, goes unnoticed
  (`Transport.RacedRewriteGoesUnnoticed`); rewrites between dials never do any harm
  (`Transport.NeverStale`).
* **The re-keyer can lose an entry.** Its set of entries to delete is keyed by old key. A new key
  loses every entry precisely when the first old key that takes it is repeated further down
  (`Rekey.LosesEveryEntry`; `Rekey.RepeatedKeyLost` is such a manifest). Its comment says the first is
  kept.
* **Shares from before the V2 format** give the secret exactly when none of their shards begins with
  the two marker bytes; when only some do, the set is refused as mixed
  (`ShamirTheorems.CombineOfLegacy`, and `LegacySharesMixed` for such a set). In the same way a legacy
  backup restores to its key exactly when its random salt does not begin with the eight bytes of the
  magic (`Backup.LegacyRestores`).
* **An altered share** shows in the payload unless another share has the id 0
  (`ShamirTheorems.PayloadAfterChange`). `split` never makes that id.
* **Redaction** counts option values as positionals, so an unusual order does not only mask too much.
  The secret positional of a `store`, `enroll` or `recovery` line is logged verbatim exactly when an
  option's separate value stands before it (`Redact.TrueSecretShown`); `enroll --label NAME TOKEN`
  masks the label and logs the token (`Redact.EnrollmentTokenShown`).
* **Redaction** also takes a secret flag's value standing before the subcommand for the subcommand. A
  log line is independent of what it masks exactly when the first token that is no flag is not such a
  value, or no positional that a subcommand could mask tells the difference (`Redact.HidesExactly`;
  `Redact.FlagValueTakenForCommand` is a pair of lines).
* **The secret holder** handles an exception in its eraser, but an interrupt there leaves it live over
  a partly erased buffer. A view then shows exactly the secret if and only if every byte overwritten
  was zero already (`SecretHolders.ViewShowsSecretExactly`; `InterruptedReleaseShows` is such a run).
* **The base64 reader** raises on invalid input only up to a point: its fallback skips characters of
  neither alphabet. Text without padding is refused exactly when its digits end one over a group of
  four, or two or three over without the padding its length is given (`Base64Id.RefusedExactly`);
  `!!!!` is the empty id (`Base64Id.ExclamationMarks`).
* **Serials**: `int(body, 16)` accepts a second `0x` and a sign behind the first, so `0x0x12` renders
  as the serial 0x12 (`Serial.DoublePrefix`) and `0x-5` as a text with a minus sign
  (`Serial.SignBehindPrefix`). `Serial.RendersAs` says exactly which texts render as a serial.

## Model

| member | source | states |
|---|---|---|
| GF256.MulAddRight | packages/cli/src/venya_cli/shamir.py:49-59 | The peasant product distributes over XOR in its right argument |
| GF256.MulAddLeft | packages/cli/src/venya_cli/shamir.py:49-59 | The peasant product distributes over XOR in its left argument |
| GF256.MulComm | packages/cli/src/venya_cli/shamir.py:49-59 | The peasant product is commutative, though the loop treats its two arguments differently |
| GF256.MulAssoc | packages/cli/src/venya_cli/shamir.py:49-59 | The peasant product is associative |
| GF256.SquareEightTimes | packages/cli/src/venya_cli/shamir.py:62-72 | Squaring eight times is the identity on all bytes |
| GF256.Pow255 | packages/cli/src/venya_cli/shamir.py:62-72 | Every non-zero byte to the power 255 is one |
| GF256.MulInverse | packages/cli/src/venya_cli/shamir.py:62-72 | a^254 is the two-sided inverse of every non-zero a |
| GF256.NoZeroDivisors | packages/cli/src/venya_cli/shamir.py:49-72 | A product is zero if and only if a factor is |
| CarrylessProduct.MulMeaning | packages/cli/src/venya_cli/shamir.py:33-59 | A byte is the product exactly when it is the remainder of the carry-less product modulo x^8+x^4+x^3+x+1 |
| Shamir.Gf256Mul | packages/cli/src/venya_cli/shamir.py:49-59 | The eight-round loop on integers of up to nine bits computes the field product |
| Shamir.Gf256Inv | packages/cli/src/venya_cli/shamir.py:62-72 | Zero is refused; otherwise the seven-round loop returns a byte whose product with a is one |
| Polynomial.TooManyRoots | packages/cli/src/venya_cli/shamir.py:75-90 | A polynomial with no more coefficients than distinct roots is zero |
| Polynomial.AgreementIsEquality | packages/cli/src/venya_cli/shamir.py:75-90 | Two polynomials that agree on as many distinct points as they have coefficients are equal |
| Polynomial.WeightAtPoint | packages/cli/src/venya_cli/shamir.py:82-89 | Each Lagrange weight is one at its own point and zero at every other |
| Polynomial.Interpolates | packages/cli/src/venya_cli/shamir.py:75-90 | Through any points with distinct x goes a polynomial with one coefficient per point |
| Polynomial.LagrangeIsEval | packages/cli/src/venya_cli/shamir.py:82-90 | For any number of points with distinct x on a polynomial of smaller degree, the Lagrange sum is its value at every x |
| Shamir.LagrangeInterpolate | packages/cli/src/venya_cli/shamir.py:75-90 | Fails exactly when a point before the first one at x shares its x with another point; otherwise gives the early-exit y or the Lagrange sum |
| Shamir.InterpolatedIsEval | packages/cli/src/venya_cli/shamir.py:75-90 | What interpolation hands out is the polynomial's value at every x, the early exit included |
| Shamir.Horner | packages/cli/src/venya_cli/shamir.py:143-147 | The loop over reversed coefficients evaluates the polynomial |
| Shamir.DrawCoefficients | packages/cli/src/venya_cli/shamir.py:136-139 | The payload byte is the constant term, followed by the threshold - 1 bytes that arrived, each in its place; fails exactly when one of them does not arrive |
| Shamir.DrawnArrived | packages/cli/src/venya_cli/shamir.py:138-139 | Coefficient j of position i is the byte that arrived for it |
| Shamir.Transpose | packages/cli/src/venya_cli/shamir.py:151-155 | Byte p of shard i is byte i of row p |
| Shamir.EvaluateShares | packages/cli/src/venya_cli/shamir.py:133-160 | Refines the matrix specification: share x at position i is polynomial i at x, behind id, marker and threshold |
| Shamir.Split | packages/cli/src/venya_cli/shamir.py:93-162 | The three refusals in order; ids 1 to N, each length secret + 8; on every later exit the payload buffer is all zero, and neither the caller's secret nor the shares are touched |
| Shamir.HasDistinctIds | packages/cli/src/venya_cli/shamir.py:185-188 | Comparing the size of the id set with the number of shares detects exactly the duplicates |
| Shamir.FormatFlags | packages/cli/src/venya_cli/shamir.py:190-193 | Whether some and whether all bodies carry the marker |
| Shamir.CommonThreshold | packages/cli/src/venya_cli/shamir.py:202-205 | There is one threshold exactly when no share's marker differs from the first one's |
| Shamir.Combine | packages/cli/src/venya_cli/shamir.py:165-228 | Every check in the order the code makes it, then the interpolated payload, verified for V2 shares only; what that answers is stated by `ShamirTheorems.CombineAccepts` |
| ShamirTheorems.CombineOfSplit | packages/cli/src/venya_cli/shamir.py:93-228 | For every secret, 2 <= K <= N <= 255, all random coefficients and any distinct shares in any order: K or more give exactly the secret, fewer are refused |
| ShamirTheorems.CombineAccepts | packages/cli/src/venya_cli/shamir.py:182-228 | A secret is handed out if and only if the set is well formed and, for V2, its payload is the hash of that very secret followed by it; for a legacy set, its payload is the secret |
| ShamirTheorems.MissingThresholdExactly | packages/cli/src/venya_cli/shamir.py:201-205 | The one set that breaks combine for want of a threshold: distinct ids and nothing but the marker behind each |
| ShamirTheorems.ExplanationExists | packages/cli/src/venya_cli/shamir.py:135-149 | Below K shares, every payload of the right length has coefficients that make split write exactly what was seen |
| ShamirTheorems.ExplanationUnique | packages/cli/src/venya_cli/shamir.py:135-149 | With K - 1 shares seen, those coefficients are unique |
| ShamirTheorems.FewerSharesSayNothing | packages/cli/src/venya_cli/shamir.py:135-149 | Each candidate secret is explained by exactly one choice of coefficients when K - 1 shares are seen, and by at least one below that |
| ShamirTheorems.CandidatesAreEquallyLikely | packages/cli/src/venya_cli/shamir.py:135-149 | Perfect secrecy at every size below K: one fixed shift of the coefficients, its own inverse, carries the explanations of any candidate secret to those of any other, whatever was seen |
| ShamirTheorems.EveryChoiceIsDrawn | packages/cli/src/venya_cli/shamir.py:135-139 | Every choice of coefficients is what some random source delivers, so that counting coefficients is counting deliveries |
| ShamirTheorems.SourceExplains | packages/cli/src/venya_cli/shamir.py:135-149 | Whatever fewer than K shares show, for every candidate secret the random source could have delivered bytes from which split makes exactly them |
| ShamirTheorems.WeightNonZero | packages/cli/src/venya_cli/shamir.py:82-89 | Every Lagrange weight away from the points is non-zero |
| ShamirTheorems.PayloadAfterChange | packages/cli/src/venya_cli/shamir.py:212-217 | Altering one shard changes the payload at exactly the altered positions, if and only if no other share has id 0 |
| ShamirTheorems.AlteredShare | packages/cli/src/venya_cli/shamir.py:201-226 | The set with one altered shard passes the same structural checks, and gives a secret if and only if what it determines is that secret's hash followed by it |
| ShamirTheorems.ChecksumChangeRefused | packages/cli/src/venya_cli/shamir.py:219-225 | If combine accepts a V2 set of distinct non-zero ids, it refuses the set after any change confined to the checksum positions of one share |
| ShamirTheorems.SplitSetWellFormed | packages/cli/src/venya_cli/shamir.py:157-160 | Any K or more shares made by split satisfy what the two results above ask for |
| ShamirTheorems.CombineOfLegacy | packages/cli/src/venya_cli/shamir.py:190-228 | Legacy shares give the secret, unverified, if and only if no shard begins with the marker; a set with only some shards marked is refused as mixed |
| ShamirTheorems.LegacySharesMixed | packages/cli/src/venya_cli/shamir.py:190-193 | A two-byte secret and its coefficients, of whose first two legacy shares one is marked and the set refused |
| ByteArrays.ByteArray.Erase | packages/cli/src/venya_cli/secret_holder.py:141-154 | Every byte of the owned buffer is zero and its length is kept |
| SecretHolders.RoundToPageIsLeast | packages/cli/src/venya_cli/secret_holder.py:88-91 | The allocation is the least whole number of pages that holds the secret |
| SecretHolders.RunState | packages/cli/src/venya_cli/secret_holder.py:264-310 | Over every run: before the first release that gets recorded only interrupted ones leave a trace, in the buffer, and after it nothing changes |
| SecretHolders.RunAnswers | packages/cli/src/venya_cli/secret_holder.py:264-310 | Over every run: views show the secret, less what interrupted releases overwrote, until the first recorded release and are refused from then on; every later release reports what that one observed |
| SecretHolders.ViewShowsSecretExactly | packages/cli/src/venya_cli/secret_holder.py:264-310 | A live view shows exactly the secret if and only if no interrupted release overwrote a byte that was not zero; so always, when none was interrupted |
| SecretHolders.InterruptedReleaseShows | packages/cli/src/venya_cli/secret_holder.py:289-297 | A release interrupted after bytes that were not all zero leaves a live holder that shows another secret |
| SecretHolders.RunBuffer | packages/cli/src/venya_cli/secret_holder.py:188-310 | Over every run: live means the secret, less what interrupted releases overwrote, plus zero padding; zeroized implies all zero; a released holder reports a pin exactly after an interrupted unpin, and is pinned exactly after a refused or interrupted one |
| SecretHolders.ReleasedBuffer | packages/cli/src/venya_cli/secret_holder.py:289-297 | The first recorded release leaves zeros, or, after an exception in the eraser, zeros up to there and the rest as it was |
| SecretHolders.SecretHolder.constructor | packages/cli/src/venya_cli/secret_holder.py:199-214 | The buffer is the secret padded with zeros to whole pages; the pin's answer is recorded and never fatal |
| SecretHolders.SecretHolder.AttemptPin | packages/cli/src/venya_cli/secret_holder.py:218-236 | A refused or unavailable pin changes nothing but the record of it |
| SecretHolders.SecretHolder.GetView | packages/cli/src/venya_cli/secret_holder.py:264-278 | None exactly after release; otherwise a view of exactly the secret in the owned buffer |
| SecretHolders.SecretHolder.DoRelease | packages/cli/src/venya_cli/secret_holder.py:282-310 | Erases in place, reports what was observed, is idempotent; handles an exception in the eraser and a refused unpin, and lets interrupts through, with the state each leaves |
| SecretHolders.Create | packages/cli/src/venya_cli/secret_holder.py:199-206 | Refuses exactly the empty secret |
| FileSystems.WriteTemp | packages/cli/src/venya_cli/at_rest_key.py:198-209 | Until the rename no file but the temporary one differs from before, in every intermediate state |
| FileSystems.AtomicWrite | packages/cli/src/venya_cli/at_rest_key.py:187-215 | In every intermediate state the target is wholly old or wholly new, with one commit point; a failure before it leaves all files as they were, and a temporary file stays exactly when the failing write had made one and unlinking fails too |
| AtRest.WriteBack | packages/cli/src/venya_cli/commands.py:4736-4747 | Validate, decide the envelope, write atomically: one atomic passage to the decided bytes, or no state at all |
| AtRest.Restore | packages/cli/src/venya_cli/commands.py:4733-4747 | Hold, write back, erase: the outcome, the files, every intermediate state, all or nothing but for an interrupt after the rename, and the erased holder on every exit |
| AtRest.DoneExactly | packages/cli/src/venya_cli/commands.py:4736-4747 | Done means written: the restore succeeds if and only if there is something to write and the write completes; bytes that are no key are refused as such |
| AtRest.RestorableExactly | packages/cli/src/venya_cli/at_rest_key.py:144-184 | There is something to write if and only if the bytes are a key and the target is absent, or can be read and is plaintext or opened by a supplied passphrase |
| AtRest.WrittenCarries | packages/cli/src/venya_cli/at_rest_key.py:144-184 | What is written carries the restored key, in plaintext or under a supplied passphrase, in the format that was there |
| AtRest.AcquiresExactly | packages/cli/src/venya_cli/at_rest_key.py:116-141 | The environment's passphrase if it has one, else the one typed |
| AtRest.UnwrapsExactly | packages/cli/src/venya_cli/at_rest_key.py:55-90 | Bytes that parse pass through; others need a passphrase that opens them and come out in the library's own plaintext |
| AtRest.FailureLeavesFiles | packages/cli/src/venya_cli/at_rest_key.py:187-215 | Corollary of the restore's outcome: a failed restore has written the target if and only if an interrupt arrived after the rename |
| AtRest.PlaintextStaysPlaintext | packages/cli/src/venya_cli/at_rest_key.py:144-170 | Corollary: a plaintext target receives exactly the restored bytes, whatever passphrases are set or typed |
| AtRest.EncryptedStaysEncrypted | packages/cli/src/venya_cli/at_rest_key.py:55-113 | An encrypted target is written only under a passphrase that opens it now, stays encrypted under it, and unwraps to the restored key |
| AtRest.EncryptedRefusal | packages/cli/src/venya_cli/at_rest_key.py:158-169 | Corollary: an encrypted target is refused, with nothing written, exactly when no passphrase can be had or it does not open the file |
| AtRest.AbsentTarget | packages/cli/src/venya_cli/at_rest_key.py:172-184 | Corollary: a new target is encrypted exactly when a non-empty passphrase is known, and then under it, carrying the restored key |
| AtRest.AttemptKeepsFormat | packages/cli/src/venya_cli/at_rest_key.py:144-170 | One restore either changes nothing or leaves the restored key in the format that was there |
| AtRest.FormatNeverChanges | packages/cli/src/venya_cli/at_rest_key.py:144-215 | Over every run of restores, faults included: the target is never lost, never changes format, and holds the key of the last write; every other file keeps its bytes, and the only new ones are temporary files of failed writes that could not be unlinked |
| Backup.UnpadAccepts | packages/cli/src/venya_cli/commands.py:4369-4372 | Unpadding accepts exactly a message followed by p copies of p with 1 <= p <= 16 |
| Backup.PadUnpad | packages/cli/src/venya_cli/commands.py:4360-4372 | On whole blocks padding and unpadding undo each other both ways |
| Backup.ExportThenRestore | packages/cli/src/venya_cli/commands.py:4333-4358 | Every blob export writes passes the length floor and restores, with the same passphrase, to the same key |
| Backup.LegacyRestores | packages/cli/src/venya_cli/commands.py:4360-4372 | A legacy blob restores to its key if and only if its salt does not begin with the magic |
| Backup.RestoreAccepts | packages/cli/src/venya_cli/commands.py:4333-4372 | A file restores to a key if and only if the passphrase has 15 characters and the file is magic, salt, nonce and a message that opens to the key, or salt, iv and a ciphertext of the padded key |
| Backup.ExportAccepts | packages/cli/src/venya_cli/commands.py:4474-4514 | Export writes magic, salt, nonce and the sealed key if and only if the passphrase is not all white space and has 15 characters |
| Backup.PromptTwice | packages/cli/src/venya_cli/commands.py:4462-4472 | The prompt loop ends with the first entry that was confirmed, and without one exactly when none was |
| Custody.IdOfSharePath | packages/cli/src/venya_cli/commands.py:4591-4593 | Printing an id into a file name and parsing the stem undo each other, for every id and directory |
| Custody.SharePathsDistinct | packages/cli/src/venya_cli/commands.py:4591-4593 | Different ids have different share files |
| Custody.IdWithSuffix | packages/cli/src/venya_cli/commands.py:4654-4659 | A suffix on a share file does not change the id read from its name |
| Custody.ShareNames | packages/cli/src/venya_cli/commands.py:4593-4593 | The names at both ends of the range of ids |
| Custody.WriteShares | packages/cli/src/venya_cli/commands.py:4591-4609 | On every exit and in every state on the way each share path is wholly old or wholly new, the first ones new; a failure leaves at most one temporary name |
| Custody.OtherFilesStay | packages/cli/src/venya_cli/commands.py:4591-4609 | Writing shares touches no file that is not one of theirs |
| Custody.LoadsExactly | packages/cli/src/venya_cli/commands.py:4550-4565 | A plaintext key file is handed on as it is; any other loads if and only if a supplied passphrase opens it, and then as the plaintext of the key inside, never as what is on disk |
| Custody.HoldAndSplit | packages/cli/src/venya_cli/commands.py:4571-4586 | The shares of exactly the held key, or a refusal; the plaintext is erased on every exit |
| Custody.SplitCaKey | packages/cli/src/venya_cli/commands.py:4529-4614 | Succeeds exactly when the key loads, the parameters are valid, the random bytes arrive and no write fails; refusals touch no file, and in every state only share paths, each wholly old or new, and temporary names differ; a key that was loaded was held, and is erased |
| Custody.ReadShareFiles | packages/cli/src/venya_cli/commands.py:4646-4667 | Reads the files in the order given, prepends the id in the name, and stops at the first failure |
| Custody.ReadShareExactly | packages/cli/src/venya_cli/commands.py:4649-4667 | A share file is read if and only if it exists and its name ends in the number of a byte, which becomes its first byte; only a number that is no byte goes uncaught |
| Custody.UncaughtExactly | packages/cli/src/venya_cli/commands.py:4676-4680 | Shares that were read break the command if and only if their ids differ and each file holds the marker and nothing else |
| Custody.RestoreCaKey | packages/cli/src/venya_cli/commands.py:4617-4752 | All or nothing but for an interrupt after the rename; it exits with success if and only if the request yields a key, the target can take it and the write completes, and then the target carries that key; a non-empty key was held, and is erased |
| Custody.SplitThenRestore | packages/cli/src/venya_cli/commands.py:4588-4677 | Any K or more of the written files, in any order, hand the original key bytes on; fewer are refused |
| Custody.SharesBringKeyBack | packages/cli/src/venya_cli/commands.py:4588-4747 | Restored over a key file that holds any other key in either format, the shares bring the split key back in that format, or every file is left alone |
| Custody.DiskKeyThroughShares | packages/cli/src/venya_cli/commands.py:4555-4677 | From the key on disk, plaintext or sealed, through the shares made of it, back to that key |
| Custody.PromptAndSeal | packages/cli/src/venya_cli/commands.py:4455-4522 | The output receives the sealed key exactly when a passphrase is confirmed, passes both checks and the rename happens, in one atomic passage; otherwise no file changes |
| Custody.ExportCaKey | packages/cli/src/venya_cli/commands.py:4393-4526 | Succeeds exactly when the key loads, a confirmed passphrase passes both checks and the write completes; the states are one atomic passage to the sealed key or none; a key that was loaded was held, and is erased |
| Custody.ExportThenRestoreFile | packages/cli/src/venya_cli/commands.py:4682-4719 | The exported file restores, with the passphrase that sealed it, to the key it was made of |
| Custody.DiskKeyThroughBackup | packages/cli/src/venya_cli/commands.py:4426-4719 | From the key on disk, plaintext or sealed, through the backup made of it, back to that key |
| PythonInt.FormatPlain | packages/cli/src/venya_cli/commands.py:2905-2905 | Formatted digits are plain, at least as many as the width, and have the number's value, at any size |
| PythonInt.FormatShortest | packages/cli/src/venya_cli/commands.py:2905-2905 | The width is a floor and nothing more: a longer text begins with no zero; the digits are the small hex digits |
| PythonInt.ParsePlain | packages/cli/src/venya_cli/commands.py:2902-2902 | Plain digits read as their value, in base 16 also behind 0x or 0X |
| PythonInt.Underscores | packages/cli/src/venya_cli/commands.py:2902-2902 | An underscore between digits is read over; one at an end, or two together, is refused |
| PythonInt.ParseFormat | packages/cli/src/venya_cli/commands.py:2902-2905 | Text formatted with any minimum width parses back to the number |
| Serial.RendersAs | packages/cli/src/venya_cli/commands.py:2876-2905 | A text renders as serial n if and only if it reads as n in hex: one number has one text, two numbers have two, and other text never looks like a serial |
| Serial.OtherTextsAgree | packages/cli/src/venya_cli/commands.py:2895-2904 | Texts that are no serial render alike if and only if they differ only in case and surrounding white space |
| Serial.NegativeIsDecimal | packages/cli/src/venya_cli/commands.py:2893-2894 | A stored negative number renders as its own decimal text |
| Serial.SpellingsAgree | packages/cli/src/venya_cli/commands.py:2876-2905 | Every case, any leading zeros, 0x or not, and white space around: one text per number |
| Serial.ParseLower | packages/cli/src/venya_cli/commands.py:2895-2905 | Lower-casing never changes what a text reads as |
| Serial.CanonicalTwice | packages/cli/src/venya_cli/commands.py:2876-2905 | Canonicalising twice changes nothing, whatever was stored |
| Serial.DoublePrefix | packages/cli/src/venya_cli/commands.py:2898-2905 | A text with two 0x prefixes renders as the serial behind them |
| Serial.SignBehindPrefix | packages/cli/src/venya_cli/commands.py:2898-2905 | A minus sign behind the prefix is read, and the text rendered is that of the negative number |
| Transport.RunConsistent | packages/cli/src/venya_cli/api_client.py:648-812 | Over every run: a built transport has the anchor and an https URL, presents a certificate only if it was fingerprinted and not session-only, and is staged only while unclosed; no transport is closed twice |
| Transport.BuilderReads | packages/cli/src/venya_cli/api_client.py:728-766 | Over every run: the fingerprint and the presented bytes of the staged transport are the two reads of the one dial that built it |
| Transport.HandedOut | packages/cli/src/venya_cli/api_client.py:689-766 | What a dial after any run hands out, if built here, presents nothing or what the dial that built it loaded, and the bytes that dial fingerprinted are those just seen on disk |
| Transport.PresentsDiskExactly | packages/cli/src/venya_cli/api_client.py:728-766 | A transport that presents a certificate presents the bytes now on disk if and only if the file was not rewritten between the two reads of the dial that built it |
| Transport.NeverStale | packages/cli/src/venya_cli/api_client.py:676-766 | After any run whose rewrites fall between dials, a transport handed out presents nothing or exactly the bytes now on disk |
| Transport.RacedRewriteGoesUnnoticed | packages/cli/src/venya_cli/api_client.py:734-753 | A rewrite during the build, put back afterwards, is confirmed while the other content is presented |
| Transport.SessionOnlyForGood | packages/cli/src/venya_cli/api_client.py:781-812 | After the switch no dial of the run presents a certificate |
| Transport.Reconfirmation | packages/cli/src/venya_cli/api_client.py:747-766 | Unchanged bytes return the same transport and change nothing; changed bytes close the old one once, first; a failed rebuild leaves nothing staged |
| Transport.DialsExactly | packages/cli/src/venya_cli/api_client.py:689-766 | A dial answers if and only if the staged transport is reused or a new one can be built; the new one presents the certificate whenever there is a pair and session-only is not set |
| Transport.RefusesExactly | packages/cli/src/venya_cli/api_client.py:690-735 | The refusals of a dial that has to build, the expired certificate among them, and that nothing is staged then |
| Transport.StaleRefusals | packages/cli/src/venya_cli/api_client.py:751-765 | A certificate file that cannot be read refuses and keeps the staged transport; a stale one that cannot be closed is dropped |
| Transport.InjectedIsHandedOut | packages/cli/src/venya_cli/api_client.py:768-812 | What is injected is handed out as it is; None and the session-only switch force a build |
| Transport.APIClient.constructor | packages/cli/src/venya_cli/api_client.py:616-632 | A new client has dialled nothing |
| Transport.APIClient.GetHttp | packages/cli/src/venya_cli/api_client.py:648-766 | The getter, re-entering itself at most once, is one dial of the state machine in state and answer |
| Transport.APIClient.SetHttp | packages/cli/src/venya_cli/api_client.py:768-779 | The setter is one injection, of any transport, new or staged before; the fingerprint is forgotten |
| Transport.APIClient.UseSessionOnlyTransport | packages/cli/src/venya_cli/api_client.py:781-812 | The switch drops the staged transport and nothing else |
| Base64Id.StrictThenLenient | packages/cli/src/venya_cli/webauthn.py:31-42 | Whatever the strict standard reading accepts, the lenient base64url reading reads as the same bytes |
| Base64Id.OneMeaning | packages/cli/src/venya_cli/webauthn.py:22-44 | The strict attempt never changes the answer, so a string readable in both alphabets has one meaning |
| Base64Id.RefusedExactly | packages/cli/src/venya_cli/webauthn.py:31-44 | Text without padding is refused if and only if its digits of either alphabet end one over a group of four, or with more over than the padding for its length makes up for |
| Base64Id.OnlyDigits | packages/cli/src/venya_cli/webauthn.py:37-44 | Text of the alphabets alone is refused if and only if its length is one over a multiple of four |
| Base64Id.ForeignTextIsEmptyId | packages/cli/src/venya_cli/webauthn.py:37-42 | Text with no digit of either alphabet is no error but the empty id |
| Base64Id.ExclamationMarks | packages/cli/src/venya_cli/webauthn.py:37-42 | Four exclamation marks are the empty id |
| Base64Id.ReadBack | packages/cli/src/venya_cli/webauthn.py:37-42 | The lenient decoder gives back every byte string from its characters and padding |
| Base64Id.DecodesBothForms | packages/cli/src/venya_cli/fido2_client.py:117-119 | Every non-empty byte string is returned from its unpadded base64url form and from its padded standard form |
| Base64Id.Alphabets | packages/cli/src/venya_cli/webauthn.py:31-42 | The two alphabets, value by value |
| Base64Id.SixBits | packages/cli/src/venya_cli/fido2_client.py:1248-1251 | Four sextets are the octets they spell, most significant bits first |
| Rekey.SpliceNext | packages/server/scripts/gen_beta_terms_pins.py:445-447 | Splicing the leftmost edit into text that has all later ones gives the simultaneous splice |
| Rekey.ApplyEdits | packages/server/scripts/gen_beta_terms_pins.py:435-447 | The right-to-left in-place splices equal all edits at once |
| Rekey.DeleteOne | packages/server/scripts/gen_beta_terms_pins.py:449-452 | Deleting the topmost entry from text that lost all lower ones gives the simultaneous deletion |
| Rekey.DeleteEntries | packages/server/scripts/gen_beta_terms_pins.py:448-452 | The bottom-up deletions keep exactly the lines of no deleted entry, in order |
| Rekey.PlanDrops | packages/server/scripts/gen_beta_terms_pins.py:423-433 | Refuses exactly on a conflict; otherwise the dropped keys are those of entries that are not the first of their new key |
| Rekey.ConflictsExactly | packages/server/scripts/gen_beta_terms_pins.py:420-432 | There is a conflict if and only if the map sends two entries of different values to one key |
| Rekey.RekeyManifest | packages/server/scripts/gen_beta_terms_pins.py:400-454 | Refuses exactly when two entries with different values would share a key; otherwise equals one simultaneous rewrite, all other text unchanged |
| Rekey.RekeyedParses | packages/server/scripts/gen_beta_terms_pins.py:434-454 | The written text holds exactly the survivors, in order and on their own lines, each with its new key quoted between its own old text: it parses again |
| Rekey.RekeyedByMap | packages/server/scripts/gen_beta_terms_pins.py:421-447 | Each survivor stands in the written text under the key the map gives it, quoted in the key's place if it differs, and its line untouched if it does not |
| Rekey.OtherTextStays | packages/server/scripts/gen_beta_terms_pins.py:434-454 | A line of no deleted entry that starts no entry stands as it was, moved up by the deleted lines above it, and no line is added |
| Rekey.WrittenKeysDistinct | packages/server/scripts/gen_beta_terms_pins.py:423-454 | No two entries of the written text share a key |
| Rekey.SurvivesIff | packages/server/scripts/gen_beta_terms_pins.py:427-452 | An entry survives if and only if it is the first to take its new key and its old key is not repeated further down |
| Rekey.ExactlyOneSurvivor | packages/server/scripts/gen_beta_terms_pins.py:410-452 | With distinct keys and no conflict each new key keeps exactly one entry, the first, with the value its whole group had |
| Rekey.LosesEveryEntry | packages/server/scripts/gen_beta_terms_pins.py:427-452 | A new key loses every entry if and only if the first old key that takes it is repeated |
| Rekey.RepeatedKeyLost | packages/server/scripts/gen_beta_terms_pins.py:427-452 | Two equal entries under one old key raise no conflict and are both deleted |
| Redact.FirstPass | packages/cli/src/venya_cli/cli.py:940-948 | Masks exactly the secret positionals of the subcommand, counted among the tokens that are no flags |
| Redact.PlainLineShown | packages/cli/src/venya_cli/cli.py:929-948 | On a line without flags exactly one token can be masked: the value of a store, the token of an enrollment, the code of a recovery |
| Redact.FlagsMasked | packages/cli/src/venya_cli/cli.py:934-959 | A value behind a secret flag is masked, and one written into the flag's own token is masked behind the flag's name |
| Redact.OtherFlagsShown | packages/cli/src/venya_cli/cli.py:956-959 | Any other token with a dash is logged as it is |
| Redact.RedactArgv | packages/cli/src/venya_cli/cli.py:938-961 | The two passes, the second stepping by one or two, give what is shown token by token; non-secret tokens are verbatim and in place |
| Redact.TrueSecretShown | packages/cli/src/venya_cli/cli.py:924-948 | Whatever positions the parser binds to options: the secret positional of the subcommand is logged verbatim if and only if an option value stands before it, masked flag values and a literal mask apart |
| Redact.TrueSecretMasked | packages/cli/src/venya_cli/cli.py:929-948 | Without an option value before it the secret positional is always masked |
| Redact.EnrollmentTokenShown | packages/cli/src/venya_cli/cli.py:895-897 | An enrollment with its label first masks the label and logs the token |
| Redact.LogHidesSecrets | packages/cli/src/venya_cli/cli.py:920-961 | Two command lines that differ only in what the table masks, token shapes kept, are logged alike, unless the first one has a masked flag value for its subcommand and a positional that tells |
| Redact.LeakIsReal | packages/cli/src/venya_cli/cli.py:941-948 | For such a line there is another, different only in masked values, that is logged differently |
| Redact.HidesExactly | packages/cli/src/venya_cli/cli.py:938-961 | The log is independent of what it masks if and only if the line is not such a one: a test on the one line |
| Redact.FlagValueTakenForCommand | packages/cli/src/venya_cli/cli.py:941-948 | Two lines that differ in one masked flag value and show different tokens |
| BlankLines.ReplaceKeepsClamped | packages/cli/scripts/gen_cli_reference.py:669-670 | One non-overlapping replacement, on runs of any length, keeps the text with its runs clamped |
| BlankLines.ClampedIsRuns | packages/cli/scripts/gen_cli_reference.py:668-671 | Clamping maximal runs and dropping every newline after two are the same function |
| BlankLines.Collapse | packages/cli/scripts/gen_cli_reference.py:667-671 | The loop ends, and its result is the text with every maximal newline run clamped to two and all else in order |
| BlankLines.ClampedTwice | packages/cli/scripts/gen_cli_reference.py:668-671 | A collapsed text has no triple newline and collapses to itself |
| Splice.BeginFound | scripts/gen_third_party_notices.py:328-328 | After splicing, the first opening sentinel is where it was; none straddles the seam |
| Splice.EndFound | scripts/gen_third_party_notices.py:329-329 | After splicing, the first closing sentinel from there on is the end of the block |
| Splice.SpliceTwice | scripts/gen_third_party_notices.py:321-330 | Splicing replaces the region and nothing else, and is idempotent |
| Splice.SplicedPasses | scripts/gen_third_party_notices.py:414-440 | What splicing writes passes the stale-block gate |
| Splice.PassesExactly | scripts/gen_third_party_notices.py:423-440 | With both sentinels present the gate passes if and only if the region is the block |
| Splice.RefusesExactly | scripts/gen_third_party_notices.py:323-430 | Splicing refuses one sentinel without the other and a page where no END follows BEGIN; the gate reports a missing block exactly where the block is required |
| Splice.RenderedIsWellShaped | scripts/gen_third_party_notices.py:257-310 | A rendered block has the shape the results above need if and only if no row contains the closing sentinel |

## Left out

- AtRest.Restore: file modes, ownership, `mkdir` and `ensure_secret_dir` are kernel behaviour and not part of the state; a failing one is a failing write.
- AtRest.Restore: which of the two file names the key has, and which environment variable belongs to it, are parameters.
- AtRest.Restore: the release at its end, and that of the other commands, runs without an interrupt; `SecretHolders` says what an interrupt there leaves.
- Redact.TrueSecretShown: a positional that begins with a dash, as it may behind `--`, counts as a flag here as it does in the code.
- SecretHolders.SecretHolder.GetView: the release of the view itself at the end of its block, and `__del__`, are not modelled; Python raises on any later use of the view.
- Custody.IdOfSharePath: the file name is what follows the last slash; paths that end in a slash or in a dot component, which `pathlib` shortens first, are not modelled.
- Custody.ExportCaKey: message wording is not modelled, and the exit status is stated only as success or not.
- Custody.RestoreCaKey: a share file or backup that exists but cannot be read is not modelled; the at-rest file is.
- PythonInt.ParsePlain: Unicode digits, and the interpreter's limit on the number of decimal digits, are not modelled.
- Serial.RendersAs: text is ASCII; full case folding and Unicode white space are not modelled.
- Base64Id.OneMeaning: the decoder is the automaton of CPython's `binascii`; the texts of its errors are not modelled, and an argument that is not a string is not part of the type.
- Rekey.RekeyManifest: every manifest key has a value in `values`, as in the dictionary its caller reads from the same file; the sorts are modelled by the source order of the parse; columns count characters where Python counts UTF-8 bytes.
- Rekey.RekeyManifest: finding the dictionary literal, evaluating its keys, and `repr` are parameters; each entry stands on lines of its own, as the rewriter itself relies on.
- Transport.RunConsistent: fingerprints are the certificate bytes themselves, so hash collisions are out; the key file, the choice of anchor, and the validity check of the certificate are single answers of the world.
- Splice.PassesExactly: only the block half of `check`; the scan for unbacked versions is a table of regular expressions.
- Shamir.Split: the module-level claim that `os.urandom` is uniform is not used; secrecy is the counting of coefficient choices.
- `audit_keys` and `manifest_key_problems`, which count and report repeated manifest keys, are not modelled.
- `generate` of gen_beta_terms_pins.py, which rewrites the coordinates inside pages, is not modelled.
- HTTP, argparse trees, prompts, printing, USB ceremonies and terminal gates: input and output; their answers are parameters where they matter.
- The insides of AES-GCM, CBC, PBKDF2, SHA-256, PEM and X.509: foreign libraries, opaque here.
- Database migrations, census and scrub scripts and version comparison are not modelled.
