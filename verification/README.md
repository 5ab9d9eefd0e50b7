# secret-rotator-operator: password generator and rotation reconciler

A Dafny model of the two pieces of sequential logic in the operator that
rotates a password stored in HashiCorp Vault on a schedule.

- **Password generator** (`security.GeneratePassword`, module `Generator`,
  `generator.dfy`). The alphabet is upper-case letters, lower-case letters and
  digits, with the symbol class appended when symbols are requested. A
  non-positive length is rejected. Otherwise a buffer of `length` characters is
  filled from the alphabet, one secure random index per position. The secure
  random source is an oracle: a sequence of `Draw`s, each either an index or a
  failure. A sequence that runs out counts as a failure. The source's promise
  that an index lies in `[0, |alphabet|)` is the `ValidEntropy` precondition.
  There are two versions: a pure function (`GeneratePassword`, built on the
  recursive `Fill`) and the array-filling loop as the source writes it
  (`GeneratePasswordInPlace`). The loop is proved to agree with the function.
- **Rotation reconciler** (the body of `RotationReconciler.Reconcile`, module
  `Reconciler`, `reconciler.dfy`). One pass is a pure function
  `Reconcile(Rotation, Environment): Step` with the I/O removed.
  - Inputs from the `Environment`:
    - the parsed interval, or `None` if it does not parse;
    - two clock readings: `sinceNow` for the elapsed-time check and `stampNow`
      for the rotation stamp;
    - the random source;
    - whether `writeToVault` reports success (returns a nil error);
    - whether the status update succeeds.
  - Outputs in the `Step`:
    - the status sent with `Status().Update`;
    - the `writeToVault(path, password)` call made, if any;
    - the status the resource store holds afterwards;
    - controller-runtime's `(Result, error)`.
  - The pass calls the generator model itself. This makes the default length
    of 16 visible in the password that is written.
  - Durations and instants are integer nanoseconds.
- **Successive passes** (module `Cycles`, `cycles.dfy`). `Run` applies one
  pass per environment. Each pass reads the status the previous pass left in
  the store. The lemmas here are about the last rotation time over a whole run.

Facts about the code that the model keeps:
- An interval that does not parse leaves the status untouched and persists
  nothing. The pass returns an empty result with a nil error (lines 44-49).
- An interval that parses to zero or a negative duration (`"0s"`, `"-1h"`) is
  not rejected. A negative interval can make a stamp that lies ahead of the
  clock count as due, so the last rotation time moves backwards, and the
  success path then returns a non-positive requeue delay.
  `NegativeIntervalMovesStampBack` exhibits this; the monotonicity lemmas
  assume a positive interval.
- The status strings are `"ErrorGeneracion"`, `"ErrorVault"` and `"Ready"`.
- The status updates after a generation failure and after a Vault failure
  ignore their own error (lines 86, 99). If such an update fails, the stored
  status stays as it was and the pass still returns its normal result.
- Only the update after a successful write reports its error (lines 109-111).
- The `set == ""` guard of the generator can never fire.
- The `!needsRotation` early return (lines 66-68) can never be reached.
  `SilentOnlyOnBadInterval` states what follows from this: the only silent
  no-op pass is the one whose interval does not parse.

## Model

| member | source | states |
|---|---|---|
| Generator.Alphabet | internal/security/generator.go:21-32 | The alphabet has 62 characters without symbols and 92 with them, so it is never empty. A character belongs to it exactly when it is a letter or digit, or when symbols were requested and it is one of the symbols. |
| Generator.SymbolsExtendAlphabet | internal/security/generator.go:24-30 | The alphabet with symbols is the letters-and-digits alphabet with the symbol class appended. The letters-and-digits alphabet is its 62-character prefix. |
| Generator.SymbolsOnlyOnRequest | internal/security/generator.go:28-30 | Every symbol is in the alphabet with symbols and missing from the one without. Every character of the smaller alphabet is in the larger one, and some character is only in the larger one: a strict superset. |
| Generator.AlphabetIsDistinct | internal/security/generator.go:12-15 | No character occurs twice in either alphabet. So distinct indices name distinct characters, and no character is over-represented. |
| Generator.Fill | internal/security/generator.go:38-49 | Filling n positions succeeds exactly when the source supplies n indices without failing or running out. The result then has n characters, and the k-th is the alphabet's character at the k-th drawn index. |
| Generator.GeneratePassword | internal/security/generator.go:20-52 | The result is an invalid-input error exactly when length <= 0. It is an entropy error exactly when length > 0 and the source fails within the first length draws. On any error the password is "". On success the password has exactly length characters, the k-th being the alphabet's character at the k-th drawn index. |
| Generator.FillStaysInAlphabet | internal/security/generator.go:39-48 | Since every drawn index is below the alphabet's length, every character a fill produces is a character of the alphabet. |
| Generator.PasswordUsesAlphabet | internal/security/generator.go:28-48 | Every character of a generated password is in that call's alphabet. Without symbols, every character is a letter or digit and none is a symbol. |
| Generator.GeneratePasswordInPlace | internal/security/generator.go:34-51 | The buffer-filling loop returns "" with an error, or a password of exactly length characters taken from the alphabet at the drawn indices. It succeeds exactly when length > 0 and the source supplies length indices. Its result equals the pure GeneratePassword. |
| Reconciler.Schedule | internal/controller/rotation_controller.go:52-63 | Rotation is due exactly when there is no last rotation time or at least one interval has elapsed. Otherwise the wait is positive and ends exactly at the last rotation time plus the interval. |
| Reconciler.BoundaryIsInclusive | internal/controller/rotation_controller.go:54-55 | Elapsed time equal to the interval means rotate. One nanosecond less means wait one nanosecond. |
| Reconciler.WaitCountsDown | internal/controller/rotation_controller.go:54-62 | Asked again t nanoseconds into a wait, the scheduler asks for t less: no drift. After the full delay, rotation is due. |
| Reconciler.Reconcile | internal/controller/rotation_controller.go:44-115 | Each outcome of one pass, branch by branch. Unparseable interval: no update, no write, no requeue, no error. Not due: requeue at exactly the due instant, nothing touched. Due: a status update is always sent. Generation failed: status "ErrorGeneracion", the generator's own error returned, no writeToVault call. Otherwise one writeToVault call with vaultPath and a password of the effective length. The written password is the generator's password for that length. writeToVault reports failure: status "ErrorVault", requeue after 30 s, no error. writeToVault reports success: "Ready" stamped with the clock, requeue after one interval, or an error if the status update fails. The last rotation time changes only after writeToVault reports success and the status update goes through. |
| Reconciler.SilentOnlyOnBadInterval | internal/controller/rotation_controller.go:44-68 | A pass returns an empty result without touching anything exactly when its interval does not parse. So the early return after the needsRotation check never happens. |
| Reconciler.PasswordLengthFollowsSpec | internal/controller/rotation_controller.go:77-82 | The written password has 16 characters when the configured length is 0, and the configured length otherwise. |
| Reconciler.NegativeLengthIsGenerationError | internal/controller/rotation_controller.go:77-88 | A due pass with a negative configured length returns the generator's invalid-input error with no requeue delay, and writes nothing to Vault. |
| Reconciler.WrittenPasswordUsesAlphabet | internal/controller/rotation_controller.go:82-95 | Every character written to Vault is in the alphabet of the resource; without symbols, each is a letter or digit and none is a symbol. |
| Reconciler.NegativeIntervalMovesStampBack | internal/controller/rotation_controller.go:44-115 | With an interval of -1 s, a stamp 5 ns ahead of the clock counts as due: the pass stores the earlier clock reading as the last rotation time and returns a negative requeue delay with no error. |
| Reconciler.LastRotatedNeverMovesBack | internal/controller/rotation_controller.go:53-107 | With a positive interval and a clock that does not go back within a pass, a pass never clears or decreases the last rotation time. When it changes it, the time strictly increases. |
| Reconciler.SuccessRequeueLandsOnDue | internal/controller/rotation_controller.go:106-115 | After a pass that called writeToVault, saw it report success and got its status update through, the pass the requeue schedules finds rotation due. Every pass between the stamp and that instant waits. |
| Reconciler.WaitRequeueLandsOnDue | internal/controller/rotation_controller.go:54-62 | A waiting pass leaves the status unchanged. Re-run t nanoseconds later it waits t less, and re-run when its requeue fires it rotates. |
| Cycles.Run | internal/controller/rotation_controller.go:85-108 | A pass writes only status fields, so any number of passes leaves the spec as configured. |
| Cycles.BadIntervalIsInert | internal/controller/rotation_controller.go:44-49 | A resource whose interval does not parse is left exactly as it was by any number of passes. |
| Cycles.StampsComeFromSuccessfulWrites | internal/controller/rotation_controller.go:94-112 | After any run, the last rotation time is either the initial one or the clock stamp stored by a pass of the run that actually called writeToVault, saw it report success, and got its status update through. |
| Cycles.RunNeverMovesBack | internal/controller/rotation_controller.go:53-108 | With a positive interval and a clock that does not go back within a pass, a resource rotated once stays rotated. Its last rotation time never decreases over a run. |

## Left out

- Fetching the resource (`r.Get`, `client.IgnoreNotFound`, lines 37-41) and `SetupWithManager` (lines 165-170): resource-store I/O. A pass starts from the resource it is given.
- The body of `writeToVault` (lines 125-162): Vault client plumbing. Its reported outcome is the input `vaultReportsOk`.
- The error of the actual Vault write (`client.Logical().Write`, line 156) is dropped and `writeToVault` returns nil (line 161); it fails only when the client cannot be created. Every property stated about a "successful write" holds for the outcome `writeToVault` reports, not for the write itself: a failed write still leads to "Ready" and a new last rotation time.
- `time.ParseDuration`: a Go library function. Its outcome is the `Option<Duration>` field `rotationInterval`.
- Clock reads (`time.Since`, line 54; `metav1.Now`, line 106): the inputs `sinceNow` and `stampNow`.
- `Status().Update`: its outcome is the single input `statusUpdateOk`, because a pass issues at most one update.
- Uniform distribution and the absence of modulo bias in `crypto/rand.Int`: these are probabilistic. The model keeps only "an index in range, or a failure".
- Logging calls in both files.
- 64-bit integer widths: Go's `time.Duration` is an int64 with saturating `time.Since`, and lengths are Go `int`. The model uses unbounded integers, so overflow and saturation are not modelled.
- The second-level precision of `metav1.Time` once persisted: the stored stamp is exactly `stampNow`.
- Byte strings: Go builds the password as bytes. Every alphabet character is ASCII, so the model uses `char` one-for-one.
