/** The enforcement side of the rules engine: the boot-mode and mount
    state (bootmode_setup, check_system_mount), the rules-ready test, and the
    verdict of lookup_tree and rules_lookup for a path and an attribute,
    told as functions of the engine's state. */
module Lookup {
  import opened ByteStrings
  import opened RuleTree
  import opened Integrity
  import opened PathMatch
  import opened Loader

  /** lookup_tree's results: 0, 1 and DEFEX_INTEGRITY_FAIL. */
  datatype Verdict = Miss | Hit | IntegrityFail

  /** feature_immutable_path_open | feature_immutable_path_write. */
  const IMMUTABLE_BITS: nat := 384

  /** "/system_root" as bytes, without its terminator. */
  const SYSTEM_ROOT: seq<byte> := [47, 115, 121, 115, 116, 101, 109, 95, 114, 111, 111, 116]

  /** One enforcement request: the path (None for a NULL pointer), the
      requested attribute, the file handle (None for NULL) and the crypto
      services the integrity gate would use. */
  datatype Query = Query(path: Option<seq<byte>>, attribute: nat, file: Option<TargetFile>, crypto: Crypto)

  ghost predicate QueryOk(q: Query) {
    && (q.path.Some? ==> CString(q.path.value))
    && (q.file.Some? ==> FileOk(q.file.value))
    && CryptoOk(q.crypto)
  }

  /** What the environment offers a late load made from inside a lookup:
      whether load_lock is taken, the clock (every get_seconds() reading
      of one lookup, those of a restarted attempt included, is taken as
      equal), and the policy file. */
  datatype LateEnv = LateEnv(lockBusy: bool, clock: nat, policyFile: RulesFile)
  {
    predicate Valid() { clock < ULONG_MOD && FileSound(policyFile) }
  }

  /** The engine's global and static state: defex_packed_rules, is_recovery,
      check_system_mount's mount_system_root (-1 until probed) and the
      statics of load_rules_late. */
  datatype EngineState = EngineState(rules: seq<byte>, isRecovery: bool, mountSystemRoot: int, late: LateState)

  /** Outcome of a lookup: the verdict (None where the C code has undefined
      behaviour) and the state afterwards. */
  datatype Answer = Answer(verdict: Option<Verdict>, state: EngineState)

  /** bootmode_setup("bootmode=" argument): a first character '2' selects
      recovery mode; anything else, or no argument, leaves the mode. */
  function BootmodeStep(isRecovery: bool, arg: Option<seq<byte>>): (r: bool)
    ensures r <==> isRecovery || (arg.Some? && arg.value != [] && arg.value[0] == 50)
  {
    if arg.Some? && ByteStrings.At(arg.value, 0) == 50 then true else isRecovery
  }

  /** The probes check_system_mount makes on its first call: whether
      /sbin/recovery and /system/bin/recovery open, and whether /system_root
      opens as a directory. */
  datatype MountProbe = MountProbe(sbinRecovery: bool, systemBinRecovery: bool, systemRoot: bool)

  /** check_system_mount: probes on the first call only, setting recovery
      mode when either recovery binary exists and recording whether
      /system_root exists; every call answers from the recorded value. */
  function MountStep(st: EngineState, probe: MountProbe): (r: (EngineState, bool))
    ensures r.1 <==> r.0.mountSystemRoot > 0
    ensures r.0.rules == st.rules && r.0.late == st.late
    ensures st.mountSystemRoot >= 0 ==> r.0 == st
    ensures st.mountSystemRoot < 0 ==>
              && r.0.mountSystemRoot == (if probe.systemRoot then 1 else 0)
              && (r.0.isRecovery <==> st.isRecovery || probe.sbinRecovery || probe.systemBinRecovery)
  {
    if st.mountSystemRoot < 0 then
      var recovery := if probe.sbinRecovery || probe.systemBinRecovery then true else st.isRecovery;
      var st' := st.(isRecovery := recovery, mountSystemRoot := if probe.systemRoot then 1 else 0);
      (st', st'.mountSystemRoot > 0)
    else (st, st.mountSystemRoot > 0)
  }

  /** Probing happens once: after the first call, later calls ignore what
      the probes would say and change nothing. */
  lemma {:induction false} MountProbedOnce(st: EngineState, first: MountProbe, later: MountProbe)
    ensures var s1 := MountStep(st, first).0;
            MountStep(s1, later) == (s1, MountStep(st, first).1)
  {
  }

  /** check_rules_ready on a buffer that holds at least the root's header. */
  function CheckRulesReady(rules: seq<byte>, lay: Layout): (r: int)
    requires lay.Valid() && lay.name <= |rules|
    ensures r == 1 <==> NodeAt(rules, lay, 0).value.dataSize != 0
    ensures r == 0 || r == 1
  {
    if RulesReady(rules, lay) then 1 else 0
  }

  lemma {:induction false} ReadLEZero(s: seq<byte>)
    requires AllZero(s)
    ensures ReadLE(s) == 0
    decreases |s|
  {
    if s != [] {
      assert s[0] == 0;
      assert AllZero(s[1..]) by {
        forall i | 0 <= i < |s[1..]| ensures s[1..][i] == 0 { assert s[1..][i] == s[i + 1]; }
      }
      ReadLEZero(s[1..]);
    }
  }

  /** A cleared buffer, which is what a failed boot load leaves, holds no
      rules. */
  lemma {:induction false} ClearedBufferNotReady(rules: seq<byte>, lay: Layout)
    requires lay.Valid() && lay.name <= |rules| && AllZero(rules)
    ensures CheckRulesReady(rules, lay) == 0
  {
    var f := lay.dataSize;
    var s := rules[f.at .. f.at + f.width];
    assert AllZero(s) by {
      forall i | 0 <= i < |s| ensures s[i] == 0 { assert s[i] == rules[f.at + i]; }
    }
    ReadLEZero(s);
  }

  /** The verdict at the node nd where the walk stopped, last telling
      whether its segment ends the path: DEFEX_INTEGRITY_FAIL when
      DEFEX_INTEGRITY_ENABLE is set, the node is a file, a handle was
      passed, the path is not the exempt one and the content check fails;
      0 for a directory asked about with an immutable attribute when its
      segment is the last (a trailing '/' included); 1 otherwise. */
  function Decide(integrityOn: bool, nd: Node, last: bool, q: Query): (v: Verdict)
    requires |nd.integrity| == HASH_SIZE && QueryOk(q) && q.path.Some?
    ensures v == IntegrityFail ==> integrityOn && IsFile(nd) && q.file.Some? && q.path.value != INTEGRITY_EXEMPT
    ensures v == Miss ==> !IsFile(nd) && last && BitAnd(q.attribute, IMMUTABLE_BITS) != 0
  {
    if integrityOn && IsFile(nd) && q.file.Some? && IntegrityDefault(q.path.value) != 0
       && CheckIntegrity(q.file.value, nd.integrity, q.crypto) != 0
    then IntegrityFail
    else if BitAnd(q.attribute, IMMUTABLE_BITS) != 0 && !IsFile(nd) && last then Miss
    else Hit
  }

  /** The integrity gate fails a request exactly when the gate is built
      in, the node is a file, a handle was passed, the path is not
      /system/bin/install-recovery.sh, the node's digest is not all zero,
      and the file's content cannot be shown to hash to it. */
  lemma {:induction false} IntegrityFailExactly(integrityOn: bool, nd: Node, last: bool, q: Query)
    requires |nd.integrity| == HASH_SIZE && QueryOk(q) && q.path.Some?
    ensures Decide(integrityOn, nd, last, q) == IntegrityFail <==>
              && integrityOn && IsFile(nd) && q.file.Some?
              && q.path.value != INTEGRITY_EXEMPT
              && !AllZero(nd.integrity)
              && !ContentMatches(q.file.value, nd.integrity, q.crypto)
  {
    if q.file.Some? {
      CheckIntegrityMeaning(q.file.value, nd.integrity, q.crypto);
    }
  }

  /** lookup_tree on loaded rules, for a path that starts with '/': the
      walk from the root over the segments after that '/', then the verdict
      where it stopped. */
  function LoadedAnswer(integrityOn: bool, t: Tree, isRecovery: bool, q: Query): (r: Option<Verdict>)
    requires Digests(t) && QueryOk(q) && q.path.Some? && q.path.value != []
    ensures r == Some(IntegrityFail) ==> integrityOn && q.file.Some? && q.path.value != INTEGRITY_EXEMPT
  {
    match Walk(SearchOf(t, isRecovery, q.attribute), q.path.value, 0, 1)
    case At(off, last) => Some(Decide(integrityOn, t.node(off).value, last, q))
    case NoMatch => Some(Miss)
    case OutOfBuffer => None
  }

  /** The path's trail: the node matched for each segment after the
      leading '/', each found among the children of the one before. */
  function PathTrail(t: Tree, isRecovery: bool, q: Query): Trail
    requires q.path.Some? && q.path.value != []
  {
    TrailOf(SearchOf(t, isRecovery, q.attribute), 0, Segments(q.path.value[1..]))
  }

  /** The tree walk decides at the first node of the path's trail that
      shares a bit with the attribute, whatever its descendants say, and
      says 0 when no node of the trail shares one (or reads out of the
      buffer where the trail does). */
  lemma {:induction false} LoadedAnswerAtFirstSharing(integrityOn: bool, t: Tree, isRecovery: bool, q: Query)
    requires Digests(t) && QueryOk(q) && q.path.Some? && q.path.value != []
    ensures var s := SearchOf(t, isRecovery, q.attribute);
            var segs := Segments(q.path.value[1..]);
            var tr := PathTrail(t, isRecovery, q);
            && (forall k :: FirstSharing(s, tr.nodes, k) ==>
                  LoadedAnswer(integrityOn, t, isRecovery, q) ==
                    Some(Decide(integrityOn, t.node(tr.nodes[k]).value, k + 1 == |segs|, q)))
            && (NoneSharing(s, tr.nodes) ==>
                  LoadedAnswer(integrityOn, t, isRecovery, q) == if tr.fault then None else Some(Miss))
  {
    WalkStopsAtFirstSharing(SearchOf(t, isRecovery, q.attribute), q.path.value);
  }

  /** Immutable directories: when the walk stops at a directory and the
      attribute asks for immutable open or write, the answer is 0 when the
      directory's segment is the path's last and 1 when more path
      follows. */
  lemma {:induction false} ImmutableDirectory(integrityOn: bool, t: Tree, isRecovery: bool, q: Query, k: nat)
    requires Digests(t) && QueryOk(q) && q.path.Some? && q.path.value != []
    requires BitAnd(q.attribute, IMMUTABLE_BITS) != 0
    requires var tr := PathTrail(t, isRecovery, q);
             && FirstSharing(SearchOf(t, isRecovery, q.attribute), tr.nodes, k)
             && !IsFile(t.node(tr.nodes[k]).value)
    ensures LoadedAnswer(integrityOn, t, isRecovery, q) ==
              Some(if k + 1 == |Segments(q.path.value[1..])| then Miss else Hit)
  {
    LoadedAnswerAtFirstSharing(integrityOn, t, isRecovery, q);
  }

  /** One trailing '/' does not change the answer (for any path other than
      the integrity-exempt one, whose exemption the '/' would lose). */
  lemma {:induction false} TrailingSlashIgnored(integrityOn: bool, t: Tree, isRecovery: bool, q: Query)
    requires Digests(t) && QueryOk(q) && q.path.Some? && |q.path.value| >= 2
    requires q.path.value[|q.path.value| - 1] != SLASH && q.path.value != INTEGRITY_EXEMPT
    ensures var q' := q.(path := Some(q.path.value + [SLASH]));
            QueryOk(q') && LoadedAnswer(integrityOn, t, isRecovery, q') == LoadedAnswer(integrityOn, t, isRecovery, q)
  {
    var p := q.path.value;
    var p' := p + [SLASH];
    assert CString(p') by {
      forall i | 0 <= i < |p'| ensures p'[i] != NUL { if i < |p| { assert p'[i] == p[i]; } }
    }
    WalkTrailingSlash(SearchOf(t, isRecovery, q.attribute), p);
    ExemptIsCString();
    assert p' != INTEGRITY_EXEMPT by { assert p'[|p'| - 1] != INTEGRITY_EXEMPT[30]; }
  }

  /** Segments after an empty one never matter: an empty segment ends the
      walk there with no match of its own. */
  lemma {:induction false} EmptySegmentEndsWalk(s: Search, base: nat, segs: seq<seq<byte>>, k: nat)
    requires k < |segs| && segs[k] == []
    ensures WalkSegments(s, base, segs) == WalkSegments(s, base, segs[..k] + [[]])
    decreases k
  {
    if k > 0 {
      var segs' := segs[..k] + [[]];
      assert segs'[0] == segs[0];
      assert segs'[1..] == segs[1..][..k - 1] + [[]];
      if segs[0] != [] && s.find(base, segs[0]).Found? {
        EmptySegmentEndsWalk(s, s.find(base, segs[0]).off, segs[1..], k - 1);
      }
    }
  }

  /** "/" and a path starting with "//" are denied: their first segment is
      empty. */
  lemma {:induction false} EmptyFirstSegmentDenied(integrityOn: bool, t: Tree, isRecovery: bool, q: Query)
    requires Digests(t) && QueryOk(q) && q.path.Some? && q.path.value != []
    requires |q.path.value| == 1 || q.path.value[1] == SLASH
    ensures LoadedAnswer(integrityOn, t, isRecovery, q) == Some(Miss)
  {
  }

  /** The answer a lookup gives while no rules are loaded, after the late
      load returned res: with res 0, or in recovery mode, only the
      ped-exception and safe-place requests are let through. */
  function UnloadedVerdict(isRecovery: bool, res: int, attribute: nat): (v: Verdict)
    ensures v == Hit ==> attribute == FEATURE_PED_EXCEPTION || attribute == FEATURE_SAFEPLACE_PATH
    ensures v == Hit ==> res == 0 || isRecovery
  {
    if (res == 0 || isRecovery) && (attribute == FEATURE_PED_EXCEPTION || attribute == FEATURE_SAFEPLACE_PATH) then Hit
    else Miss
  }

  /** lookup_tree from its try_to_load label, for a path that starts with
      '/'. Loaded rules give the walk's verdict. Without DEFEX_KERNEL_ONLY
      missing rules give 0; with it a late load is tried, a successful one
      starts the lookup again, and otherwise UnloadedVerdict answers. */
  function TryToLoad(cfg: Config, lay: Layout, st: EngineState, env: LateEnv, q: Query): (a: Answer)
    requires lay.Valid() && lay.name <= |st.rules| && st.late.Valid() && env.Valid()
    requires QueryOk(q) && q.path.Some? && q.path.value != []
    ensures a.state.isRecovery == st.isRecovery && a.state.mountSystemRoot == st.mountSystemRoot
    ensures |a.state.rules| == |st.rules| && a.state.late.Valid()
    decreases if st.late.lastTime == env.clock then 0 else 1
  {
    if RulesReady(st.rules, lay) then Answer(LoadedAnswer(cfg.integrity, TreeOf(st.rules, lay), st.isRecovery, q), st)
    else if !cfg.kernelOnly then Answer(Some(Miss), st)
    else
      var r := LateLoad(st.rules, st.late, env.lockBusy, env.clock, env.clock, env.policyFile);
      LateLoadMeaning(st.rules, st.late, env.lockBusy, env.clock, env.clock, env.policyFile);
      var st' := st.(rules := r.rules, late := r.st);
      if r.res > 0 then TryToLoad(cfg, lay, st', env, q)
      else Answer(Some(UnloadedVerdict(st.isRecovery, r.res, q.attribute)), st')
  }

  /** lookup_tree: a NULL path or one that does not start with '/' gives 0
      and touches nothing; a rules buffer too short for the root's header
      is undefined behaviour. */
  function LookupTreeSpec(cfg: Config, lay: Layout, st: EngineState, env: LateEnv, q: Query): (a: Answer)
    requires lay.Valid() && st.late.Valid() && env.Valid() && QueryOk(q)
    ensures q.path.None? || q.path.value == [] || q.path.value[0] != SLASH ==> a == Answer(Some(Miss), st)
    ensures a.state.isRecovery == st.isRecovery && a.state.mountSystemRoot == st.mountSystemRoot
  {
    if q.path.None? || ByteStrings.At(q.path.value, 0) != SLASH then Answer(Some(Miss), st)
    else if |st.rules| < lay.name then Answer(None, st)
    else TryToLoad(cfg, lay, st, env, q)
  }

  /** Missing rules without DEFEX_KERNEL_ONLY deny everything; with it, a
      late load that does not succeed lets through only the ped-exception
      and safe-place requests, and only when it returned 0 (no attempt,
      same second, or no usable file) or in recovery mode. */
  lemma {:induction false} UnloadedRules(cfg: Config, lay: Layout, st: EngineState, env: LateEnv, q: Query)
    requires lay.Valid() && lay.name <= |st.rules| && st.late.Valid() && env.Valid()
    requires QueryOk(q) && q.path.Some? && q.path.value != []
    requires CheckRulesReady(st.rules, lay) == 0
    ensures !cfg.kernelOnly ==> TryToLoad(cfg, lay, st, env, q) == Answer(Some(Miss), st)
    ensures var r := LateLoad(st.rules, st.late, env.lockBusy, env.clock, env.clock, env.policyFile);
            cfg.kernelOnly && r.res != 1 ==>
              && r.rules == st.rules
              && TryToLoad(cfg, lay, st, env, q).verdict ==
                   Some(if (r.res == 0 || st.isRecovery) &&
                           (q.attribute == FEATURE_PED_EXCEPTION || q.attribute == FEATURE_SAFEPLACE_PATH)
                        then Hit else Miss)
  {
    LateLoadMeaning(st.rules, st.late, env.lockBusy, env.clock, env.clock, env.policyFile);
  }

  /** Within one second, a successful late load restarts the lookup once:
      loaded rules are then walked; rules that still are not ready meet a late load in the
      same second, which does nothing, and the unloaded answer for res 0
      is given. */
  lemma {:induction false} LateLoadRestartsOnce(cfg: Config, lay: Layout, st: EngineState, env: LateEnv, q: Query)
    requires lay.Valid() && lay.name <= |st.rules| && st.late.Valid() && env.Valid()
    requires QueryOk(q) && q.path.Some? && q.path.value != []
    requires cfg.kernelOnly && CheckRulesReady(st.rules, lay) == 0
    requires LateLoad(st.rules, st.late, env.lockBusy, env.clock, env.clock, env.policyFile).res == 1
    ensures var r := LateLoad(st.rules, st.late, env.lockBusy, env.clock, env.clock, env.policyFile);
            var a := TryToLoad(cfg, lay, st, env, q);
            && a.state == st.(rules := r.rules, late := r.st)
            && a.verdict ==
                 if RulesReady(r.rules, lay) then LoadedAnswer(cfg.integrity, TreeOf(r.rules, lay), st.isRecovery, q)
                 else Some(UnloadedVerdict(st.isRecovery, 0, q.attribute))
  {
    var r := LateLoad(st.rules, st.late, env.lockBusy, env.clock, env.clock, env.policyFile);
    LateLoadMeaning(st.rules, st.late, env.lockBusy, env.clock, env.clock, env.policyFile);
    var st' := st.(rules := r.rules, late := r.st);
    if !RulesReady(r.rules, lay) {
      LateLoadOncePerSecond(st.rules, st.late, env.clock, env.clock, env.policyFile, env.policyFile);
    }
  }

  /** rules_lookup's prefix test and cut: strncmp over the 12 bytes of
      "/system_root" is a prefix test only, so "/system_rootX" loses the
      same 12 bytes as "/system_root/X". */
  function StripSystemRoot(mounted: bool, target: seq<byte>): (r: seq<byte>)
    ensures r == if mounted && |target| >= |SYSTEM_ROOT| && target[..|SYSTEM_ROOT|] == SYSTEM_ROOT
                 then target[|SYSTEM_ROOT|..] else target
  {
    assert CString(SYSTEM_ROOT);
    StrNCmpPrefix(target, SYSTEM_ROOT);
    if mounted && StrNCmp(target, SYSTEM_ROOT, |SYSTEM_ROOT|) == 0 then target[|SYSTEM_ROOT|..] else target
  }

  /** rules_lookup: without any of the enforcing features it answers 0 and
      does nothing; otherwise it asks check_system_mount, strips the
      system-root prefix when that answers true (a NULL target is then
      undefined behaviour), and asks lookup_tree. */
  function RulesLookupSpec(cfg: Config, lay: Layout, st: EngineState, probe: MountProbe, env: LateEnv, q: Query): (a: Answer)
    requires lay.Valid() && st.late.Valid() && env.Valid() && QueryOk(q)
    ensures !cfg.enforce ==> a == Answer(Some(Miss), st)
  {
    if !cfg.enforce then Answer(Some(Miss), st)
    else
      var (st1, mounted) := MountStep(st, probe);
      if mounted && q.path.None? then Answer(None, st1)
      else
        var q' := if q.path.None? then q else q.(path := Some(StripSystemRoot(mounted, q.path.value)));
        assert QueryOk(q') by {
          if q.path.Some? {
            var p := q.path.value;
            var p' := StripSystemRoot(mounted, p);
            forall i | 0 <= i < |p'| ensures p'[i] != NUL {
              if p' != p { assert p'[i] == p[i + |SYSTEM_ROOT|]; }
            }
          }
        }
        LookupTreeSpec(cfg, lay, st1, env, q')
  }

  /** With the overlay detected, "/system_root/a/b" is looked up as
      "/a/b". */
  lemma {:induction false} SystemRootStripped(cfg: Config, lay: Layout, st: EngineState, probe: MountProbe, env: LateEnv, q: Query, rest: seq<byte>)
    requires lay.Valid() && st.late.Valid() && env.Valid() && QueryOk(q)
    requires cfg.enforce && MountStep(st, probe).1
    requires q.path == Some(SYSTEM_ROOT + rest)
    ensures QueryOk(q.(path := Some(rest)))
    ensures RulesLookupSpec(cfg, lay, st, probe, env, q) ==
              LookupTreeSpec(cfg, lay, MountStep(st, probe).0, env, q.(path := Some(rest)))
  {
    var p := SYSTEM_ROOT + rest;
    assert p[..|SYSTEM_ROOT|] == SYSTEM_ROOT && p[|SYSTEM_ROOT|..] == rest;
    forall i | 0 <= i < |rest| ensures rest[i] != NUL { assert rest[i] == p[i + |SYSTEM_ROOT|]; }
  }

  /** "/system_rootX" becomes "X", which does not start with '/' and is
      denied. */
  lemma {:induction false} SystemRootPrefixOnly(cfg: Config, lay: Layout, st: EngineState, probe: MountProbe, env: LateEnv, q: Query)
    requires lay.Valid() && st.late.Valid() && env.Valid() && QueryOk(q)
    requires cfg.enforce && MountStep(st, probe).1
    requires q.path == Some(SYSTEM_ROOT + [88])
    ensures RulesLookupSpec(cfg, lay, st, probe, env, q) == Answer(Some(Miss), MountStep(st, probe).0)
  {
    SystemRootStripped(cfg, lay, st, probe, env, q, [88]);
  }

  /** Without the overlay the target is looked up as it is. */
  lemma {:induction false} NoOverlayNoStrip(cfg: Config, lay: Layout, st: EngineState, probe: MountProbe, env: LateEnv, q: Query)
    requires lay.Valid() && st.late.Valid() && env.Valid() && QueryOk(q)
    requires cfg.enforce && !MountStep(st, probe).1
    ensures RulesLookupSpec(cfg, lay, st, probe, env, q) == LookupTreeSpec(cfg, lay, MountStep(st, probe).0, env, q)
  {
  }
}
