/** The rules engine as the kernel runs it: the global policy buffer
    defex_packed_rules, the mode flags and the statics of the loaders as the
    fields of one object, and each entry point as a method that changes
    them step by step. Every method is proved to do what the functions of
    Loader and Lookup say. */
module Engine {
  import opened ByteStrings
  import opened RuleTree
  import opened Integrity
  import opened PathMatch
  import opened Loader
  import opened Lookup

  /** memset(dst, 0, sizeof dst). */
  method Clear(dst: array<byte>)
    modifies dst
    ensures dst[..] == Zeros(dst.Length)
  {
    for j := 0 to dst.Length
      invariant forall k :: 0 <= k < j ==> dst[k] == 0
    {
      dst[j] := 0;
    }
  }

  /** memcpy(dst, src, |src|). */
  method Copy(dst: array<byte>, src: seq<byte>)
    requires |src| <= dst.Length
    modifies dst
    ensures dst[..] == Overlay(old(dst[..]), src)
  {
    for j := 0 to |src|
      invariant forall k :: 0 <= k < j ==> dst[k] == src[k]
      invariant forall k :: j <= k < dst.Length ==> dst[k] == old(dst[k])
    {
      dst[j] := src[j];
    }
  }

  /** lookup_dir(base, name, |name|, forRecovery) over the nodes of the
      policy buffer, for a search that stays inside it. */
  method LookupDir(t: Tree, base: nat, name: seq<byte>, forRecovery: bool) returns (p: Probe)
    requires NamesSized(t) && LookupDirSpec(t, base, name, forRecovery) != Fault
    ensures p == LookupDirSpec(t, base, name, forRecovery)
  {
    var b := t.node(base).value;
    if b.nextLevel == 0 {
      return Absent;
    }
    var item := t.node(b.nextLevel).value;
    var off := b.nextLevel;
    ghost var fuel: nat := t.bound;
    while true
      invariant ScanSiblings(t, off, name, forRecovery, fuel) == LookupDirSpec(t, base, name, forRecovery)
      invariant t.node(off) == Some(item)
      decreases fuel
    {
      if (!IsFile(item) || ForRecovery(item) == forRecovery) && item.size == |name| {
        var itemName := item.name.value;
        MemCmpEqual(name, itemName);
        if MemCmp(name, itemName, |name|) == 0 {
          return Found(off);
        }
      }
      off := item.nextFile;
      if off == 0 {
        return Absent;
      }
      item := t.node(off).value;
      fuel := fuel - 1;
    }
  }

  /** What lookup_tree returns at the node item that shares a bit with the
      attribute, last telling whether its segment ends the path. */
  method DecideAt(integrityOn: bool, item: Node, last: bool, q: Query) returns (v: Verdict)
    requires |item.integrity| == HASH_SIZE && QueryOk(q) && q.path.Some?
    ensures v == Decide(integrityOn, item, last, q)
  {
    if integrityOn && IsFile(item) && q.file.Some? {
      var d := IntegrityDefault(q.path.value);
      if d != 0 {
        var c := DefexCheckIntegrity(q.file.value, item.integrity, q.crypto);
        if c != 0 {
          return IntegrityFail;
        }
      }
    }
    if BitAnd(q.attribute, IMMUTABLE_BITS) != 0 && !IsFile(item) && last {
      return Miss;
    }
    return Hit;
  }

  /** The do-while loop of lookup_tree over loaded rules: one segment per
      round, below the node matched for the one before. */
  method LookupLoaded(integrityOn: bool, t: Tree, isRecovery: bool, q: Query) returns (v: Verdict)
    requires Digests(t) && NamesSized(t) && QueryOk(q) && q.path.Some? && q.path.value != []
    requires LoadedAnswer(integrityOn, t, isRecovery, q).Some?
    ensures Some(v) == LoadedAnswer(integrityOn, t, isRecovery, q)
  {
    var path := q.path.value;
    ghost var s := SearchOf(t, isRecovery, q.attribute);
    ghost var stop := Walk(s, path, 0, 1);
    assert stop != OutOfBuffer;
    var base: nat := 0;
    var i: nat := 1;
    while true
      invariant 1 <= i <= |path|
      invariant Walk(s, path, base, i) == stop
      decreases |path| - i
    {
      var rest := path[i..];
      var l := SegLen(rest);
      if l == 0 {
        return Miss;
      }
      var seg := rest[..l];
      var p := LookupDir(t, base, seg, isRecovery);
      if p.Absent? {
        p := LookupDir(t, base, seg, !isRecovery);
      }
      assert p == s.find(base, seg);
      if p.Absent? {
        return Miss;
      }
      var off := p.off;
      var item := t.node(off).value;
      assert s.shares(off) == (BitAnd(item.featureType, q.attribute) != 0);
      if BitAnd(item.featureType, q.attribute) != 0 {
        v := DecideAt(integrityOn, item, l == |rest| || i + l + 1 == |path|, q);
        return;
      }
      base := off;
      i := i + l;
      if l < |rest| {
        i := i + 1;
      }
      if i == |path| {
        return Miss;
      }
    }
  }

  class Defex {
    /** The build switches and the node layout. */
    const cfg: Config
    const lay: Layout
    /** defex_packed_rules. */
    const rules: array<byte>
    /** is_recovery. */
    var isRecovery: bool
    /** check_system_mount's mount_system_root. */
    var mountSystemRoot: int
    /** load_rules_late's start_time, last_time and in_progress. */
    var startTime: nat
    var lastTime: nat
    var inProgress: bool

    predicate Valid()
      reads this
    {
      && cfg.Valid() && lay.Valid()
      && (cfg.kernelOnly ==> rules.Length == KERNEL_ONLY_CAPACITY)
      && startTime < ULONG_MOD && lastTime < ULONG_MOD
    }

    function State(): EngineState
      reads this, rules
    {
      EngineState(rules[..], isRecovery, mountSystemRoot, LateState(startTime, lastTime, inProgress))
    }

    function Late(): LateState
      reads this
    {
      LateState(startTime, lastTime, inProgress)
    }

    /** The state at boot: the policy buffer holding its static initialiser
        image (the compiled-in rules without DEFEX_RAMDISK_ENABLE, zeros of
        DEFEX_RULES_ARRAY_SIZE bytes with it, 256 KiB under
        DEFEX_KERNEL_ONLY), normal mode, the mount not yet probed, no late
        load tried. */
    constructor(cfg: Config, lay: Layout, image: seq<byte>)
      requires cfg.Valid() && lay.Valid()
      requires cfg.ramdisk ==> AllZero(image)
      requires cfg.kernelOnly ==> |image| == KERNEL_ONLY_CAPACITY
      ensures Valid() && this.cfg == cfg && this.lay == lay
      ensures fresh(rules) && State() == EngineState(image, false, -1, LateState(0, 0, false))
    {
      this.cfg := cfg;
      this.lay := lay;
      rules := new byte[|image|](i requires 0 <= i < |image| => image[i]);
      isRecovery := false;
      mountSystemRoot := -1;
      startTime := 0;
      lastTime := 0;
      inProgress := false;
      new;
      assert rules[..] == image;
    }

    /** bootmode_setup. */
    method BootmodeSetup(arg: Option<seq<byte>>) returns (r: int)
      modifies this
      ensures r == 0
      ensures isRecovery == BootmodeStep(old(isRecovery), arg)
      ensures mountSystemRoot == old(mountSystemRoot) && Late() == old(Late())
    {
      if arg.Some? && ByteStrings.At(arg.value, 0) == 50 {
        isRecovery := true;
      }
      return 0;
    }

    /** check_system_mount. */
    method CheckSystemMount(probe: MountProbe) returns (mounted: bool)
      modifies this
      ensures (State(), mounted) == MountStep(old(State()), probe)
      ensures Late() == old(Late())
    {
      if mountSystemRoot < 0 {
        if probe.sbinRecovery || probe.systemBinRecovery {
          isRecovery := true;
        }
        mountSystemRoot := 0;
        if probe.systemRoot {
          mountSystemRoot := 1;
        }
      }
      mounted := mountSystemRoot > 0;
    }

    /** lookup_tree. */
    method LookupTree(q: Query, env: LateEnv) returns (v: Verdict)
      requires Valid() && QueryOk(q) && env.Valid()
      requires LookupTreeSpec(cfg, lay, State(), env, q).verdict.Some?
      modifies this, rules
      ensures Valid()
      ensures Some(v) == LookupTreeSpec(cfg, lay, old(State()), env, q).verdict
      ensures State() == LookupTreeSpec(cfg, lay, old(State()), env, q).state
    {
      if q.path.None? || ByteStrings.At(q.path.value, 0) != SLASH {
        return Miss;
      }
      while true
        invariant Valid() && lay.name <= rules.Length
        invariant TryToLoad(cfg, lay, State(), env, q) == TryToLoad(cfg, lay, old(State()), env, q)
        decreases if lastTime == env.clock then 0 else 1
      {
        if CheckRulesReady(rules[..], lay) != 0 {
          break;
        }
        if !cfg.kernelOnly {
          return Miss;
        }
        ghost var before := State();
        var l := LoadRulesLate(env.lockBusy, env.clock, env.clock, env.policyFile);
        LateLoadMeaning(before.rules, before.late, env.lockBusy, env.clock, env.clock, env.policyFile);
        if l > 0 {
          continue;
        }
        if l == 0 || isRecovery {
          return if q.attribute == FEATURE_PED_EXCEPTION || q.attribute == FEATURE_SAFEPLACE_PATH then Hit else Miss;
        }
        return Miss;
      }
      v := LookupLoaded(cfg.integrity, TreeOf(rules[..], lay), isRecovery, q);
    }

    /** rules_lookup. */
    method RulesLookup(q: Query, probe: MountProbe, env: LateEnv) returns (v: Verdict)
      requires Valid() && QueryOk(q) && env.Valid()
      requires RulesLookupSpec(cfg, lay, State(), probe, env, q).verdict.Some?
      modifies this, rules
      ensures Valid()
      ensures Some(v) == RulesLookupSpec(cfg, lay, old(State()), probe, env, q).verdict
      ensures State() == RulesLookupSpec(cfg, lay, old(State()), probe, env, q).state
    {
      if !cfg.enforce {
        return Miss;
      }
      var mounted := CheckSystemMount(probe);
      var target := q.path;
      if mounted {
        target := Some(StripSystemRoot(true, target.value));
      }
      var q' := q.(path := target);
      v := LookupTree(q', env);
    }

    /** load_rules_late, with the clock read on entry (cur) and the reading
        taken when start_time is first set (startReading). */
    method LoadRulesLate(lockBusy: bool, cur: nat, startReading: nat, f: RulesFile) returns (res: int)
      requires Valid() && cur < ULONG_MOD && startReading < ULONG_MOD && FileSound(f)
      modifies this, rules
      ensures Valid()
      ensures var r := LateLoad(old(rules[..]), old(Late()), lockBusy, cur, startReading, f);
              res == r.res && rules[..] == r.rules && Late() == r.st
      ensures isRecovery == old(isRecovery) && mountSystemRoot == old(mountSystemRoot)
    {
      if lockBusy {
        return 0;
      }
      if inProgress {
        return 0;
      }
      inProgress := true;
      if startTime == 0 {
        startTime := startReading;
      }
      res := 0;
      if cur == lastTime {
        inProgress := false;
        return;
      }
      if Elapsed(cur, startTime) > 30 {
        inProgress := false;
        return -1;
      }
      lastTime := cur;
      if f.NoFile? || f.size <= 0 || f.size > 2 * rules.Length || !f.allocOk || f.read <= 0 {
        inProgress := false;
        return;
      }
      var n := f.read;
      if n > rules.Length {
        n := rules.Length;
      }
      Copy(rules, f.data[..n]);
      res := if n > 0 then 1 else 0;
      inProgress := false;
    }

    /** do_load_rules, with the copy bounded by the buffer also when the
        rules are not signed. */
    method DoLoadRules(f: RulesFile, sig: SignCheck) returns (res: int)
      requires FileSound(f) && (f.RulesFile? ==> SignSound(sig, f.read))
      modifies rules
      ensures var r := DoLoad(cfg, isRecovery, rules.Length, f, sig);
              res == r.res && rules[..] == r.rules
    {
      Clear(rules);
      res := -1;
      if f.NoFile? {
        if cfg.kernelOnly && isRecovery {
          res := 0;
        }
        return;
      }
      if 0 < f.size <= 2 * rules.Length && f.allocOk && f.read > 0 {
        var len := f.read;
        if cfg.sign {
          res := sig.status;
          len := sig.verifiedLen;
          if res == 0 && (len < 0 || len > rules.Length) {
            res := -1;
          }
        } else {
          res := if len > rules.Length then -1 else 0;
        }
        if res == 0 {
          Copy(rules, f.data[..len]);
        }
      }
      if cfg.kernelOnly && isRecovery && res != 0 {
        res := 0;
      }
    }

    /** defex_load_rules. */
    method DefexLoadRules(bootUnlocked: bool, f: RulesFile, sig: SignCheck) returns (panicked: bool)
      requires FileSound(f) && (f.RulesFile? ==> SignSound(sig, f.read))
      modifies rules
      ensures BootResult(panicked, rules[..]) == BootLoad(cfg, bootUnlocked, isRecovery, old(rules[..]), f, sig)
    {
      panicked := false;
      if cfg.ramdisk && !bootUnlocked {
        var res := DoLoadRules(f, sig);
        if res != 0 && !(cfg.debug || cfg.kernelOnly) {
          panicked := true;
        }
      }
    }
  }
}
