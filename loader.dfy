/** Loading the packed rules from the policy file /dpolicy into the policy
    buffer: once at boot (do_load_rules, defex_load_rules) and, with
    DEFEX_KERNEL_ONLY, late and repeatedly from lookups while the rules are
    missing (load_rules_late). The file system, the allocator, the clock and
    the signature check are inputs. */
module Loader {
  import opened ByteStrings
  import opened RuleTree

  /** What opening and reading /dpolicy gives: no file (local_fopen
      fails), or a file whose size (i_size_read, as the int data_size),
      whether the data buffer of that size could be allocated, what
      local_fread returned, and the contents of the data buffer after the
      read. */
  datatype RulesFile =
    | NoFile
    | RulesFile(size: int, allocOk: bool, read: int, data: seq<byte>)

  /** local_fread fills at most the size it was asked for, into a buffer of
      that size. */
  predicate FileSound(f: RulesFile) {
    f.RulesFile? && f.size > 0 ==> |f.data| == f.size && f.read <= f.size
  }

  /** The result of defex_rules_signature_check(data, read, &len): a status
      (0 for a good signature) and the length of the verified rules that it
      stores into rules_size. */
  datatype SignCheck = SignCheck(status: int, verifiedLen: int)

  /** A verified length never exceeds the bytes that were checked. */
  predicate SignSound(sig: SignCheck, read: int) {
    sig.status == 0 && sig.verifiedLen >= 0 ==> sig.verifiedLen <= read
  }

  /** What local_fread returned, 0 when there was nothing to read. */
  function ReadCount(f: RulesFile): int {
    if f.RulesFile? then f.read else 0
  }

  /** The policy file is usable: the size is in the accepted range, the
      buffer was allocated and the read returned data. */
  predicate Readable(f: RulesFile, cap: nat) {
    f.RulesFile? && 0 < f.size <= 2 * cap && f.allocOk && f.read > 0
  }

  /** The outcome of a loader call: its return value and the policy buffer
      afterwards. */
  datatype Loaded = Loaded(res: int, rules: seq<byte>)

  /** do_load_rules, on a buffer of cap bytes. The buffer is cleared first;
      an unusable file gives -1. With DEFEX_SIGN_ENABLE the signature status
      is the result, and a verified length outside 0..cap (compared as
      unsigned) gives -1; the rules are copied only on 0. Without it the
      read bytes are copied when they fit, and -1 otherwise. With
      DEFEX_KERNEL_ONLY in recovery mode every failure is reported as 0. */
  function DoLoad(cfg: Config, isRecovery: bool, cap: nat, f: RulesFile, sig: SignCheck): (r: Loaded)
    requires FileSound(f) && (f.RulesFile? ==> SignSound(sig, f.read))
    ensures |r.rules| == cap
  {
    var res :=
      if !Readable(f, cap) then -1
      else if cfg.sign then
        (if sig.status == 0 && (sig.verifiedLen < 0 || sig.verifiedLen > cap) then -1 else sig.status)
      else if f.read > cap then -1
      else 0;
    var len := if cfg.sign then sig.verifiedLen else ReadCount(f);
    var rules := if res == 0 then Overlay(Zeros(cap), f.data[..len]) else Zeros(cap);
    Loaded(if cfg.kernelOnly && isRecovery && res != 0 then 0 else res, rules)
  }

  /** do_load_rules as written: without DEFEX_SIGN_ENABLE nothing bounds
      rules_size by the buffer, so memcpy is asked for up to twice the
      buffer's size. None stands for that write past the end of the
      buffer. */
  function DoLoadAsWritten(cfg: Config, isRecovery: bool, cap: nat, f: RulesFile, sig: SignCheck): (r: Option<Loaded>)
    requires FileSound(f) && (f.RulesFile? ==> SignSound(sig, f.read))
    ensures r.None? <==> !cfg.sign && Readable(f, cap) && f.read > cap
    ensures r.Some? ==> |r.value.rules| == cap
  {
    var res :=
      if !Readable(f, cap) then -1
      else if cfg.sign then
        (if sig.status == 0 && (sig.verifiedLen < 0 || sig.verifiedLen > cap) then -1 else sig.status)
      else 0;
    var len := if cfg.sign then sig.verifiedLen else ReadCount(f);
    if res == 0 && len > cap then None
    else
      var rules := if res == 0 then Overlay(Zeros(cap), f.data[..len]) else Zeros(cap);
      Some(Loaded(if cfg.kernelOnly && isRecovery && res != 0 then 0 else res, rules))
  }

  /** The overflow: a build without DEFEX_SIGN_ENABLE, a policy file of
      cap + 1 bytes (inside the accepted 2 * cap) read in full, and the copy
      runs one byte past the buffer. */
  lemma {:induction false} UnsignedCopyOverflows(cap: nat)
    requires cap > 0
    ensures var cfg := Config(false, false, false, false, false, true);
            var f := RulesFile(cap + 1, true, cap + 1, Zeros(cap + 1));
            FileSound(f) && DoLoadAsWritten(cfg, false, cap, f, SignCheck(0, 0)).None?
  {
  }

  /** Wherever the code as written stays inside the buffer, it does what
      DoLoad does; and signed builds never leave it. */
  lemma {:induction false} DoLoadAgreesWhereDefined(cfg: Config, isRecovery: bool, cap: nat, f: RulesFile, sig: SignCheck)
    requires FileSound(f) && (f.RulesFile? ==> SignSound(sig, f.read))
    ensures cfg.sign ==> DoLoadAsWritten(cfg, isRecovery, cap, f, sig).Some?
    ensures DoLoadAsWritten(cfg, isRecovery, cap, f, sig).Some? ==>
              DoLoadAsWritten(cfg, isRecovery, cap, f, sig).value == DoLoad(cfg, isRecovery, cap, f, sig)
  {
  }

  /** What a boot load leaves: on success the verified (or read) rules at
      the front of a cleared buffer, on any failure a cleared buffer, which
      holds no rules. In recovery mode under DEFEX_KERNEL_ONLY nothing is a
      failure; otherwise an unusable file and verified rules that do not fit
      give -1, and a bad signature gives the signature check's status. */
  lemma {:induction false} DoLoadMeaning(cfg: Config, isRecovery: bool, cap: nat, f: RulesFile, sig: SignCheck)
    requires FileSound(f) && (f.RulesFile? ==> SignSound(sig, f.read))
    ensures var r := DoLoad(cfg, isRecovery, cap, f, sig);
            var len := if cfg.sign then sig.verifiedLen else ReadCount(f);
            var ok := Readable(f, cap) && (if cfg.sign then sig.status == 0 && 0 <= len <= cap else len <= cap);
            && (ok ==> r.res == 0 && 0 <= len <= cap && r.rules[..len] == f.data[..len] && AllZero(r.rules[len..]))
            && (!ok ==> AllZero(r.rules))
            && (cfg.kernelOnly && isRecovery ==> r.res == 0)
            && (!ok && !(cfg.kernelOnly && isRecovery) ==> r.res != 0)
            && (!(cfg.kernelOnly && isRecovery) ==>
                  && (!Readable(f, cap) ==> r.res == -1)
                  && (Readable(f, cap) && cfg.sign && sig.status != 0 ==> r.res == sig.status)
                  && (Readable(f, cap) && cfg.sign && sig.status == 0 && !(0 <= len <= cap) ==> r.res == -1)
                  && (Readable(f, cap) && !cfg.sign && len > cap ==> r.res == -1))
  {
    var r := DoLoad(cfg, isRecovery, cap, f, sig);
    var len := if cfg.sign then sig.verifiedLen else ReadCount(f);
    var ok := Readable(f, cap) && (if cfg.sign then sig.status == 0 && 0 <= len <= cap else len <= cap);
    if ok {
      var src := f.data[..len];
      assert r.rules == Overlay(Zeros(cap), src);
      assert r.rules[..len] == src;
      assert forall i :: 0 <= i < |r.rules[len..]| ==> r.rules[len..][i] == r.rules[len + i];
    }
  }

  /** defex_load_rules: with DEFEX_RAMDISK_ENABLE and a locked boot state the
      rules are loaded, and a failed load panics unless DEFEX_DEBUG_ENABLE
      or DEFEX_KERNEL_ONLY is set. Otherwise the buffer is kept as it is:
      the compiled-in rule image without DEFEX_RAMDISK_ENABLE, the zero
      initialiser with it. */
  datatype BootResult = BootResult(panicked: bool, rules: seq<byte>)

  function BootLoad(cfg: Config, bootUnlocked: bool, isRecovery: bool, rules: seq<byte>, f: RulesFile, sig: SignCheck): (b: BootResult)
    requires FileSound(f) && (f.RulesFile? ==> SignSound(sig, f.read))
    ensures |b.rules| == |rules|
    ensures !cfg.ramdisk || bootUnlocked ==> b == BootResult(false, rules)
    ensures b.panicked ==> cfg.ramdisk && !bootUnlocked && !cfg.debug && !cfg.kernelOnly
  {
    if !cfg.ramdisk || bootUnlocked then BootResult(false, rules)
    else
      var r := DoLoad(cfg, isRecovery, |rules|, f, sig);
      BootResult(r.res != 0 && !(cfg.debug || cfg.kernelOnly), r.rules)
  }

  /** The boot panics exactly when the boot state is locked, the load
      failed, and neither DEFEX_DEBUG_ENABLE nor DEFEX_KERNEL_ONLY is set; in
      a signed build that means a missing or unreadable policy file, a bad
      signature, or verified rules that do not fit. */
  lemma {:induction false} BootPanicsExactly(cfg: Config, bootUnlocked: bool, isRecovery: bool, rules: seq<byte>, f: RulesFile, sig: SignCheck)
    requires FileSound(f) && (f.RulesFile? ==> SignSound(sig, f.read))
    ensures var b := BootLoad(cfg, bootUnlocked, isRecovery, rules, f, sig);
            var cap := |rules|;
            b.panicked <==>
              && cfg.ramdisk && !bootUnlocked && !cfg.debug && !cfg.kernelOnly
              && !(Readable(f, cap) &&
                   if cfg.sign then sig.status == 0 && 0 <= sig.verifiedLen <= cap else f.read <= cap)
  {
    if cfg.ramdisk && !bootUnlocked {
      DoLoadMeaning(cfg, isRecovery, |rules|, f, sig);
    }
  }

  /** The unsigned long arithmetic of get_seconds() values. */
  const ULONG_MOD: nat := 0x1_0000_0000_0000_0000

  /** cur_time - start_time as unsigned long. */
  function Elapsed(cur: nat, start: nat): (e: nat)
    requires cur < ULONG_MOD && start < ULONG_MOD
    ensures e < ULONG_MOD
    ensures start <= cur ==> e == cur - start
    ensures cur < start ==> e == ULONG_MOD - (start - cur)
  {
    (cur - start) % ULONG_MOD
  }

  /** The statics of load_rules_late: start_time (0 until the first try),
      last_time (the second of the last try) and in_progress. */
  datatype LateState = LateState(startTime: nat, lastTime: nat, inProgress: bool)
  {
    predicate Valid() { startTime < ULONG_MOD && lastTime < ULONG_MOD }
  }

  datatype LateResult = LateResult(res: int, rules: seq<byte>, st: LateState)

  /** load_rules_late. lockBusy: spin_trylock fails; cur: the clock read on
      entry; startReading: the clock read again when start_time is first
      set. A busy lock or a load already in progress returns 0 and changes
      nothing. Otherwise: start_time is set on the first try; a try in the
      second of the previous one returns 0; once more than 30 seconds
      (unsigned) have passed since the first try it returns -1; else the
      try is recorded and a usable file has min(read, size of buffer) bytes
      copied over the front of the buffer, giving 1. in_progress is clear
      again on every exit. */
  function LateLoad(rules: seq<byte>, st: LateState, lockBusy: bool, cur: nat, startReading: nat, f: RulesFile): (r: LateResult)
    requires st.Valid() && cur < ULONG_MOD && startReading < ULONG_MOD && FileSound(f)
    ensures r.res in {-1, 0, 1} && |r.rules| == |rules|
    ensures r.st.Valid() && r.st.inProgress == st.inProgress
    ensures r.res != 0 ==> !lockBusy && !st.inProgress && cur != st.lastTime
  {
    if lockBusy || st.inProgress then LateResult(0, rules, st)
    else
      var start := if st.startTime == 0 then startReading else st.startTime;
      if cur == st.lastTime then LateResult(0, rules, LateState(start, st.lastTime, false))
      else if Elapsed(cur, start) > 30 then LateResult(-1, rules, LateState(start, st.lastTime, false))
      else
        var st' := LateState(start, cur, false);
        if !Readable(f, |rules|) then LateResult(0, rules, st')
        else
          var n := Min(f.read, |rules|);
          LateResult(1, Overlay(rules, f.data[..n]), st')
  }

  /** What one late load does: nothing at all when the lock is busy or a
      load is in progress; otherwise in_progress ends clear, 1 means the
      front of the buffer now holds min(read, size of buffer) bytes of the
      file and the rest is unchanged, and any other result leaves the
      buffer alone. */
  lemma {:induction false} LateLoadMeaning(rules: seq<byte>, st: LateState, lockBusy: bool, cur: nat, startReading: nat, f: RulesFile)
    requires st.Valid() && cur < ULONG_MOD && startReading < ULONG_MOD && FileSound(f)
    ensures var r := LateLoad(rules, st, lockBusy, cur, startReading, f);
            && (lockBusy || st.inProgress ==> r == LateResult(0, rules, st))
            && r.st.inProgress == st.inProgress
            && r.res in {-1, 0, 1}
            && |r.rules| == |rules|
            && (r.res == 1 <==>
                  && !lockBusy && !st.inProgress && cur != st.lastTime
                  && Elapsed(cur, if st.startTime == 0 then startReading else st.startTime) <= 30
                  && Readable(f, |rules|))
            && (r.res == 1 ==>
                  var n := Min(f.read, |rules|);
                  && 0 < n && r.rules[..n] == f.data[..n] && r.rules[n..] == rules[n..]
                  && r.st.lastTime == cur)
            && (r.res != 1 ==> r.rules == rules)
  {
    var r := LateLoad(rules, st, lockBusy, cur, startReading, f);
    if r.res == 1 {
      var n := Min(f.read, |rules|);
      assert r.rules == Overlay(rules, f.data[..n]);
      assert r.rules[..n] == f.data[..n];
      assert r.rules[n..] == rules[n..];
    }
  }

  /** One attempt per second: right after a try at second cur, another call
      in the same second loads nothing and changes nothing but start_time,
      which is already set. */
  lemma {:induction false} LateLoadOncePerSecond(rules: seq<byte>, st: LateState, cur: nat, startReading: nat, f: RulesFile, g: RulesFile)
    requires st.Valid() && cur < ULONG_MOD && startReading < ULONG_MOD && FileSound(f) && FileSound(g)
    requires LateLoad(rules, st, false, cur, startReading, f).st.lastTime == cur
    ensures var r1 := LateLoad(rules, st, false, cur, startReading, f);
            LateLoad(r1.rules, r1.st, false, cur, startReading, g) == LateResult(0, r1.rules, r1.st)
  {
  }

  /** The 30-second budget: once start_time is set, a try more than 30
      seconds after it gives -1 without touching the file or the buffer,
      whereas a try exactly 30 seconds after it still runs. */
  lemma {:induction false} LateLoadBudget(rules: seq<byte>, st: LateState, cur: nat, startReading: nat, f: RulesFile)
    requires st.Valid() && cur < ULONG_MOD && startReading < ULONG_MOD && FileSound(f)
    requires !st.inProgress && st.startTime != 0 && cur != st.lastTime
    ensures st.startTime <= cur && cur - st.startTime > 30 ==>
              LateLoad(rules, st, false, cur, startReading, f) == LateResult(-1, rules, LateState(st.startTime, st.lastTime, false))
    ensures cur == st.startTime + 30 && Readable(f, |rules|) ==>
              LateLoad(rules, st, false, cur, startReading, f).res == 1
  {
  }

  /** The wrap of the unsigned subtraction: when the second clock read of
      the very first try lands one second after the first, cur_time -
      start_time is the largest unsigned long, and that first try gives up
      with -1 before reading the file. */
  lemma {:induction false} LateLoadFirstTryWrap(rules: seq<byte>, cur: nat, f: RulesFile)
    requires cur + 1 < ULONG_MOD && cur != 0 && FileSound(f)
    ensures LateLoad(rules, LateState(0, 0, false), false, cur, cur + 1, f).res == -1
  {
  }
}
