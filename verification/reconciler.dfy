/** One pass of RotationReconciler.Reconcile
    (internal/controller/rotation_controller.go), with its input and output
    made explicit: the parsed interval, two clock readings, the random
    source, what writeToVault reports and the outcome of the status update
    come in as an Environment; the status sent to the resource store, the
    writeToVault call made and the controller-runtime result go out as a
    Step. */
module Reconciler {
  import opened Wrappers
  import opened Generator

  /** Durations and instants are integers in nanoseconds, the unit of Go's
      time.Duration. */
  type Duration = int
  type Instant = int

  const Second: Duration := 1_000_000_000
  const DefaultPasswordLength: int := 16
  const VaultRetryDelay: Duration := 30 * Second

  const StatusReady: string := "Ready"
  const StatusGenerationError: string := "ErrorGeneracion"
  const StatusVaultError: string := "ErrorVault"

  /** The policy part of a Rotation resource. `rotationInterval` is what
      time.ParseDuration makes of the configured text: None when it does not
      parse. */
  datatype RotationSpec = RotationSpec(
    rotationInterval: Option<Duration>,
    passwordLength: int,
    includeSymbols: bool,
    vaultPath: string)

  datatype RotationStatus = RotationStatus(lastRotatedTime: Option<Instant>, status: string)

  datatype Rotation = Rotation(spec: RotationSpec, status: RotationStatus)

  /** Everything one pass observes from outside: the clock when it measures
      the elapsed time (`sinceNow`) and when it stamps a rotation
      (`stampNow`), the random source, whether writeToVault reports success
      (returns a nil error), and whether the status update succeeds. */
  datatype Environment = Environment(
    sinceNow: Instant,
    stampNow: Instant,
    entropy: seq<Draw>,
    vaultReportsOk: bool,
    statusUpdateOk: bool)

  datatype VaultWrite = VaultWrite(path: string, password: string)

  datatype ReconcileError = GenerationFailed(cause: GenError) | StatusUpdateFailed

  /** controller-runtime's `(ctrl.Result, error)`: a requeue delay (0 for
      none) and an optional error, which makes the caller retry. */
  datatype CtrlResult = CtrlResult(requeueAfter: Duration, err: Option<ReconcileError>)

  /** What one pass does: the status it sends with `Status().Update` (None if
      it sends none), the `writeToVault(path, password)` call it makes (None
      if it makes none), the status the resource store holds afterwards, and
      the result it returns. */
  datatype Step = Step(
    update: Option<RotationStatus>,
    vaultWrite: Option<VaultWrite>,
    stored: RotationStatus,
    result: CtrlResult)

  datatype Decision = RotateNow | WaitFor(delay: Duration)

  /** Rotation is due when it never happened or at least a full interval has
      elapsed since it last did; the boundary counts as due. */
  predicate Due(interval: Duration, last: Option<Instant>, now: Instant) {
    last.None? || now - last.value >= interval
  }

  /** The scheduling decision: rotate now, or wait exactly until the instant
      the last rotation plus the interval is reached. */
  function Schedule(interval: Duration, last: Option<Instant>, now: Instant): (d: Decision)
    ensures d.RotateNow? <==> Due(interval, last, now)
    ensures d.WaitFor? ==> d.delay > 0 && now + d.delay == last.value + interval
  {
    if last.Some? && now - last.value < interval then
      WaitFor(interval - (now - last.value))
    else
      RotateNow
  }

  /** The length handed to the generator: 0 means the default of 16. */
  function EffectiveLength(passwordLength: int): (length: int) {
    if passwordLength == 0 then DefaultPasswordLength else passwordLength
  }

  /** The random source keeps its promise for the alphabet of this resource. */
  ghost predicate EntropyFits(spec: RotationSpec, env: Environment) {
    ValidEntropy(env.entropy, |Alphabet(spec.includeSymbols)|)
  }

  /** Whether generation succeeds in this pass, stated without the
      generator: a positive effective length and enough draws. */
  predicate GenerationSucceeds(spec: RotationSpec, env: Environment) {
    var length := EffectiveLength(spec.passwordLength);
    length > 0 && Supplies(env.entropy, length)
  }

  /** The status the resource store holds after a pass that sends `sent`. */
  function Persist(previous: RotationStatus, sent: RotationStatus, ok: bool): (held: RotationStatus) {
    if ok then sent else previous
  }

  /** One pass of the reconcile loop. */
  function Reconcile(r: Rotation, env: Environment): (s: Step)
    requires EntropyFits(r.spec, env)
    // Unparseable interval: nothing generated, written or updated, no requeue.
    ensures r.spec.rotationInterval.None? ==>
      s.update.None? && s.vaultWrite.None? && s.stored == r.status && s.result == CtrlResult(0, None)
    // Not yet due: requeue for exactly the remaining time, touching nothing.
    ensures r.spec.rotationInterval.Some? &&
            !Due(r.spec.rotationInterval.value, r.status.lastRotatedTime, env.sinceNow) ==>
      && s.update.None? && s.vaultWrite.None? && s.stored == r.status
      && s.result.err.None? && s.result.requeueAfter > 0
      && env.sinceNow + s.result.requeueAfter
         == r.status.lastRotatedTime.value + r.spec.rotationInterval.value
    // Due: the pass always sends a status update.
    ensures r.spec.rotationInterval.Some? &&
            Due(r.spec.rotationInterval.value, r.status.lastRotatedTime, env.sinceNow) ==>
      s.update.Some?
    // Generation failed: error status, error returned, Vault untouched.
    ensures s.update.Some? && !GenerationSucceeds(r.spec, env) ==>
      && s.update == Some(r.status.(status := StatusGenerationError))
      && s.vaultWrite.None?
      && s.result.requeueAfter == 0
      && s.result.err == Some(GenerationFailed(
           GeneratePassword(EffectiveLength(r.spec.passwordLength), r.spec.includeSymbols, env.entropy).err.value))
      && s.stored.lastRotatedTime == r.status.lastRotatedTime
    // Generation succeeded: exactly one writeToVault call with a password of the
    // effective length to the configured path.
    ensures s.update.Some? && GenerationSucceeds(r.spec, env) ==>
      && s.vaultWrite.Some?
      && s.vaultWrite.value.path == r.spec.vaultPath
      && |s.vaultWrite.value.password| == EffectiveLength(r.spec.passwordLength)
    // What is written is the generator's password for the effective length.
    ensures s.vaultWrite.Some? ==>
      s.vaultWrite.value.password
      == GeneratePassword(EffectiveLength(r.spec.passwordLength), r.spec.includeSymbols, env.entropy).password
    // writeToVault reports failure: error status, retry after 30 seconds, no error.
    ensures s.vaultWrite.Some? && !env.vaultReportsOk ==>
      && s.update == Some(r.status.(status := StatusVaultError))
      && s.result == CtrlResult(VaultRetryDelay, None)
      && s.stored.lastRotatedTime == r.status.lastRotatedTime
    // writeToVault reports success: Ready stamped with the clock, requeue after one
    // interval, unless the status update fails, which is returned as an error.
    ensures s.vaultWrite.Some? && env.vaultReportsOk ==>
      && s.update == Some(RotationStatus(Some(env.stampNow), StatusReady))
      && s.result == (if env.statusUpdateOk
                      then CtrlResult(r.spec.rotationInterval.value, None)
                      else CtrlResult(0, Some(StatusUpdateFailed)))
    // The stored status is the one sent, if the update went through.
    ensures s.stored == (if s.update.Some? && env.statusUpdateOk then s.update.value else r.status)
    // The last rotation time moves only after writeToVault reports success
    // and the status update goes through.
    ensures s.stored.lastRotatedTime != r.status.lastRotatedTime ==>
      && s.vaultWrite.Some? && env.vaultReportsOk && env.statusUpdateOk
      && s.stored.lastRotatedTime == Some(env.stampNow)
  {
    match r.spec.rotationInterval
    case None =>
      Step(None, None, r.status, CtrlResult(0, None))
    case Some(interval) =>
      match Schedule(interval, r.status.lastRotatedTime, env.sinceNow)
      case WaitFor(remaining) =>
        Step(None, None, r.status, CtrlResult(remaining, None))
      case RotateNow =>
        var length := EffectiveLength(r.spec.passwordLength);
        var generated := GeneratePassword(length, r.spec.includeSymbols, env.entropy);
        if generated.err.Some? then
          var sent := r.status.(status := StatusGenerationError);
          Step(Some(sent), None, Persist(r.status, sent, env.statusUpdateOk),
               CtrlResult(0, Some(GenerationFailed(generated.err.value))))
        else
          var write := VaultWrite(r.spec.vaultPath, generated.password);
          if !env.vaultReportsOk then
            var sent := r.status.(status := StatusVaultError);
            Step(Some(sent), Some(write), Persist(r.status, sent, env.statusUpdateOk),
                 CtrlResult(VaultRetryDelay, None))
          else
            var sent := RotationStatus(Some(env.stampNow), StatusReady);
            if env.statusUpdateOk then
              Step(Some(sent), Some(write), sent, CtrlResult(interval, None))
            else
              Step(Some(sent), Some(write), r.status, CtrlResult(0, Some(StatusUpdateFailed)))
  }

  /** The elapsed-time comparison is strict: a rotation exactly one interval
      old is due, one a nanosecond younger waits that nanosecond. */
  lemma BoundaryIsInclusive(interval: Duration, last: Instant)
    ensures Schedule(interval, Some(last), last + interval) == RotateNow
    ensures Schedule(interval, Some(last), last + interval - 1) == WaitFor(1)
  {
  }

  /** Waiting does not drift: asked again t nanoseconds later, the scheduler
      asks for t nanoseconds less, and after the full delay rotation is due. */
  lemma WaitCountsDown(interval: Duration, last: Option<Instant>, now: Instant, t: Duration)
    requires Schedule(interval, last, now).WaitFor?
    requires 0 <= t < Schedule(interval, last, now).delay
    ensures Schedule(interval, last, now + t) == WaitFor(Schedule(interval, last, now).delay - t)
    ensures Schedule(interval, last, now + Schedule(interval, last, now).delay) == RotateNow
  {
  }

  /** The only pass that returns an empty result without touching anything
      is the one whose interval does not parse: a parsed interval always
      leads to a requeue, an error, or a status update. */
  lemma SilentOnlyOnBadInterval(r: Rotation, env: Environment)
    requires EntropyFits(r.spec, env)
    ensures var s := Reconcile(r, env);
      s.update.None? && s.vaultWrite.None? && s.result == CtrlResult(0, None)
      <==> r.spec.rotationInterval.None?
  {
  }

  /** A zero password length means 16 characters; any other length is passed
      through, and a negative one makes generation fail as invalid input. */
  lemma PasswordLengthFollowsSpec(r: Rotation, env: Environment)
    requires EntropyFits(r.spec, env)
    requires Reconcile(r, env).vaultWrite.Some?
    ensures |Reconcile(r, env).vaultWrite.value.password|
            == if r.spec.passwordLength == 0 then 16 else r.spec.passwordLength
  {
  }

  /** A negative password length is rejected by the generator: the pass
      reports the invalid input and the Vault is not written. */
  lemma NegativeLengthIsGenerationError(r: Rotation, env: Environment)
    requires EntropyFits(r.spec, env)
    requires r.spec.passwordLength < 0
    requires Reconcile(r, env).update.Some?
    ensures Reconcile(r, env).result == CtrlResult(0, Some(GenerationFailed(InvalidInput)))
    ensures Reconcile(r, env).vaultWrite.None?
  {
  }

  /** With a positive interval and a clock that does not run backwards
      within the pass, the last rotation time never moves backwards, and
      when it moves it moves strictly forward. */
  lemma LastRotatedNeverMovesBack(r: Rotation, env: Environment)
    requires EntropyFits(r.spec, env)
    requires r.spec.rotationInterval.Some? && r.spec.rotationInterval.value > 0
    requires env.sinceNow <= env.stampNow
    ensures var s := Reconcile(r, env);
      r.status.lastRotatedTime.Some? ==>
        s.stored.lastRotatedTime.Some? && s.stored.lastRotatedTime.value >= r.status.lastRotatedTime.value
    ensures var s := Reconcile(r, env);
      r.status.lastRotatedTime.Some? && s.stored.lastRotatedTime != r.status.lastRotatedTime ==>
        s.stored.lastRotatedTime.value > r.status.lastRotatedTime.value
  {
  }

  /** After a successful rotation, the pass the requeue schedules finds
      rotation due, and any earlier pass (not before the stamp) waits. */
  lemma SuccessRequeueLandsOnDue(r: Rotation, env: Environment, next: Environment)
    requires EntropyFits(r.spec, env) && EntropyFits(r.spec, next)
    requires Reconcile(r, env).vaultWrite.Some? && env.vaultReportsOk && env.statusUpdateOk
    requires r.spec.rotationInterval.Some? && r.spec.rotationInterval.value > 0
    ensures var s := Reconcile(r, env);
      next.sinceNow == env.stampNow + s.result.requeueAfter ==>
        Reconcile(r.(status := s.stored), next).update.Some?
    ensures var s := Reconcile(r, env);
      env.stampNow <= next.sinceNow < env.stampNow + s.result.requeueAfter ==>
        Reconcile(r.(status := s.stored), next).update.None?
  {
  }

  /** A waiting pass leaves the resource as it was; re-run t nanoseconds
      later it waits t less, and re-run when its requeue fires it rotates. */
  lemma WaitRequeueLandsOnDue(r: Rotation, env: Environment, later: Environment, t: Duration)
    requires EntropyFits(r.spec, env) && EntropyFits(r.spec, later)
    requires r.spec.rotationInterval.Some?
    requires Reconcile(r, env).update.None? && Reconcile(r, env).result.requeueAfter > 0
    requires later.sinceNow == env.sinceNow + t
    requires 0 <= t <= Reconcile(r, env).result.requeueAfter
    ensures Reconcile(r, env).stored == r.status
    ensures t < Reconcile(r, env).result.requeueAfter ==>
      Reconcile(r, later).result == CtrlResult(Reconcile(r, env).result.requeueAfter - t, None)
    ensures t == Reconcile(r, env).result.requeueAfter ==> Reconcile(r, later).update.Some?
  {
  }

  /** The password written to Vault comes from the alphabet of the resource:
      without symbols it holds only letters and digits. */
  lemma WrittenPasswordUsesAlphabet(r: Rotation, env: Environment)
    requires EntropyFits(r.spec, env)
    requires Reconcile(r, env).vaultWrite.Some?
    ensures forall c :: c in Reconcile(r, env).vaultWrite.value.password ==>
      c in Alphabet(r.spec.includeSymbols)
    ensures !r.spec.includeSymbols ==>
      forall c :: c in Reconcile(r, env).vaultWrite.value.password ==> IsAlnum(c) && c !in CharSymbols
  {
    PasswordUsesAlphabet(EffectiveLength(r.spec.passwordLength), r.spec.includeSymbols, env.entropy);
  }

  /** A negative interval ("-1s") parses and is used as is. A stamp less
      than one interval-magnitude ahead of the clock then counts as due, and
      is replaced by the earlier clock reading: the last rotation time moves
      backwards, and the requeue delay returned is negative. */
  lemma NegativeIntervalMovesStampBack()
    ensures var r := Rotation(RotationSpec(Some(-Second), 0, false, "secret/app"),
                              RotationStatus(Some(10), StatusReady));
            var env := Environment(5, 5, seq(16, _ => Index(0)), true, true);
            EntropyFits(r.spec, env) &&
            Reconcile(r, env).stored.lastRotatedTime == Some(5) &&
            Reconcile(r, env).result == CtrlResult(-Second, None)
  {
    var r := Rotation(RotationSpec(Some(-Second), 0, false, "secret/app"),
                      RotationStatus(Some(10), StatusReady));
    var env := Environment(5, 5, seq(16, _ => Index(0)), true, true);
    assert forall k :: 0 <= k < |env.entropy| ==> env.entropy[k] == Index(0);
    assert EntropyFits(r.spec, env);
    assert Supplies(env.entropy, 16);
    assert Schedule(-Second, Some(10), 5) == RotateNow;
    assert GeneratePassword(16, false, env.entropy).err.None?;
    assert Reconcile(r, env).stored == RotationStatus(Some(5), StatusReady);
  }
}
