/** The policy store: the packed rule tree, one byte buffer whose nodes
    (rule_item_struct) link to their first child (next_level) and to their
    next sibling (next_file) by byte offsets from the start of the buffer,
    offset 0 standing for "none". The root node sits at offset 0. */
module RuleTree {
  import opened ByteStrings

  /** The build switches of the rules engine. */
  datatype Config = Config(
    ramdisk: bool,     // DEFEX_RAMDISK_ENABLE: rules are loaded from /dpolicy
    kernelOnly: bool,  // DEFEX_KERNEL_ONLY: late loading, recovery exemptions
    sign: bool,        // DEFEX_SIGN_ENABLE: the loaded blob must be signed
    integrity: bool,   // DEFEX_INTEGRITY_ENABLE: per-file hash gate
    debug: bool,       // DEFEX_DEBUG_ENABLE: a bad blob does not panic
    enforce: bool)     // DEFEX_SAFEPLACE_ENABLE, DEFEX_IMMUTABLE_ENABLE or DEFEX_PED_ENABLE
  {
    /** load_rules_late, which lookup_tree calls when DEFEX_KERNEL_ONLY is
        set, is only built with DEFEX_RAMDISK_ENABLE. */
    predicate Valid() { kernelOnly ==> ramdisk }
  }

  /** DEFEX_RULES_ARRAY_SIZE under DEFEX_KERNEL_ONLY. */
  const KERNEL_ONLY_CAPACITY: nat := 256 * 1024

  /** SHA256_DIGEST_SIZE: the size of a node's integrity field. */
  const HASH_SIZE: nat := 32

  /** Feature bits of a node's feature_type, one distinct bit each. */
  const FEATURE_IS_FILE: nat := 1
  const FEATURE_FOR_RECOVERY: nat := 2
  const FEATURE_PED_EXCEPTION: nat := 8
  const FEATURE_SAFEPLACE_PATH: nat := 32
  const FEATURE_IMMUTABLE_PATH_OPEN: nat := 128
  const FEATURE_IMMUTABLE_PATH_WRITE: nat := 256

  /** The C operator & on two unsigned integers, one bit at a time. */
  function BitAnd(a: nat, b: nat): nat
    decreases a
  {
    if a == 0 || b == 0 then 0
    else (if a % 2 == 1 && b % 2 == 1 then 1 else 0) + 2 * BitAnd(a / 2, b / 2)
  }

  /** Where a numeric field of rule_item_struct sits: its byte position in
      the node and its width in bytes. */
  datatype Field = Field(at: nat, width: nat)

  /** The byte layout of rule_item_struct: one Field per numeric member, the
      position of the 32-byte integrity hash, and the position of name[],
      which is also the size of the fixed header. */
  datatype Layout = Layout(
    nextLevel: Field,
    nextFile: Field,
    dataSize: Field,
    size: Field,
    featureType: Field,
    integrity: nat,
    name: nat)
  {
    predicate Holds(f: Field) { 1 <= f.width <= 4 && f.at + f.width <= name }

    predicate Valid() {
      && Holds(nextLevel) && Holds(nextFile) && Holds(dataSize)
      && Holds(size) && Holds(featureType)
      && integrity + HASH_SIZE <= name
    }
  }

  /** One node as GET_ITEM_PTR(offset) exposes it. name holds its size name
      bytes, or is None when they run past the end of the buffer. */
  datatype Node = Node(
    nextLevel: nat,
    nextFile: nat,
    dataSize: nat,
    size: nat,
    featureType: nat,
    integrity: seq<byte>,
    name: Option<seq<byte>>)

  function FieldValue(buf: seq<byte>, off: nat, f: Field): nat
    requires off + f.at + f.width <= |buf|
  {
    ReadLE(buf[off + f.at .. off + f.at + f.width])
  }

  /** The node whose header starts at off, when that header lies inside the
      buffer; reading any other header is out of bounds. */
  function NodeAt(buf: seq<byte>, lay: Layout, off: nat): (r: Option<Node>)
    requires lay.Valid()
    ensures r.Some? <==> off + lay.name <= |buf|
    ensures r.Some? ==> |r.value.integrity| == HASH_SIZE
    ensures r.Some? && r.value.name.Some? ==> |r.value.name.value| == r.value.size
  {
    if off + lay.name <= |buf| then
      var size := FieldValue(buf, off, lay.size);
      var at := off + lay.name;
      Some(Node(
        FieldValue(buf, off, lay.nextLevel),
        FieldValue(buf, off, lay.nextFile),
        FieldValue(buf, off, lay.dataSize),
        size,
        FieldValue(buf, off, lay.featureType),
        buf[off + lay.integrity .. off + lay.integrity + HASH_SIZE],
        if at + size <= |buf| then Some(buf[at .. at + size]) else None))
    else None
  }

  /** The rule tree as the walk sees it: the node at each offset, and the
      length of the buffer, which bounds how many links a sibling chain may
      have (a chain that ends visits distinct in-buffer offsets). */
  datatype Tree = Tree(node: nat -> Option<Node>, bound: nat)

  /** Every node of t carries a full SHA-256 digest. */
  ghost predicate Digests(t: Tree) {
    forall off :: t.node(off).Some? ==> |t.node(off).value.integrity| == HASH_SIZE
  }

  /** Every name that can be read holds size bytes. */
  ghost predicate NamesSized(t: Tree) {
    forall off :: t.node(off).Some? && t.node(off).value.name.Some? ==>
      |t.node(off).value.name.value| == t.node(off).value.size
  }

  function TreeOf(buf: seq<byte>, lay: Layout): (t: Tree)
    requires lay.Valid()
    ensures t.bound == |buf| && Digests(t) && NamesSized(t)
    ensures forall off :: t.node(off) == NodeAt(buf, lay, off)
  {
    Tree((off: nat) => NodeAt(buf, lay, off), |buf|)
  }

  predicate IsFile(nd: Node) { BitAnd(nd.featureType, FEATURE_IS_FILE) != 0 }

  predicate ForRecovery(nd: Node) { BitAnd(nd.featureType, FEATURE_FOR_RECOVERY) != 0 }

  /** check_rules_ready's test: the root's data_size is non-zero. */
  predicate RulesReady(buf: seq<byte>, lay: Layout)
    requires lay.Valid() && lay.name <= |buf|
  {
    NodeAt(buf, lay, 0).value.dataSize != 0
  }

  /** lookup_dir's test of one sibling against the segment name: a directory
      of either mode, or a file of the requested mode, whose size is |name|
      and whose name bytes are the segment. None when that comparison would
      read past the buffer. */
  function Accepts(nd: Node, name: seq<byte>, forRecovery: bool): (r: Option<bool>)
    ensures r == Some(true) <==> nd.name == Some(name) && nd.size == |name| && (!IsFile(nd) || ForRecovery(nd) == forRecovery)
    ensures r.None? ==> nd.name.None?
  {
    if (!IsFile(nd) || ForRecovery(nd) == forRecovery) && nd.size == |name| then
      if nd.name.Some? then Some(nd.name.value == name) else None
    else Some(false)
  }

  predicate AcceptsAt(t: Tree, off: nat, name: seq<byte>, forRecovery: bool) {
    t.node(off).Some? && Accepts(t.node(off).value, name, forRecovery) == Some(true)
  }

  /** Outcome of a search: the offset found, nothing found, or a read that
      leaves the buffer (undefined behaviour in the C code). */
  datatype Probe = Found(off: nat) | Absent | Fault

  /** The do-while loop of lookup_dir from the sibling at off, following
      next_file. A chain that has not ended after fuel further links is
      treated as malformed (Fault). */
  function ScanSiblings(t: Tree, off: nat, name: seq<byte>, forRecovery: bool, fuel: nat): (p: Probe)
    ensures p.Found? ==> AcceptsAt(t, p.off, name, forRecovery)
    decreases fuel
  {
    match t.node(off)
    case None => Fault
    case Some(nd) =>
      match Accepts(nd, name, forRecovery)
      case None => Fault
      case Some(true) => Found(off)
      case Some(false) =>
        if nd.nextFile == 0 then Absent
        else if fuel == 0 then Fault
        else ScanSiblings(t, nd.nextFile, name, forRecovery, fuel - 1)
  }

  /** lookup_dir(base, name, |name|, forRecovery): no children gives Absent,
      otherwise the scan of base's children, allowed t.bound links. */
  function LookupDirSpec(t: Tree, base: nat, name: seq<byte>, forRecovery: bool): (p: Probe)
    ensures p.Found? ==> AcceptsAt(t, p.off, name, forRecovery)
  {
    match t.node(base)
    case None => Fault
    case Some(b) =>
      if b.nextLevel == 0 then Absent
      else ScanSiblings(t, b.nextLevel, name, forRecovery, t.bound)
  }

  /** The sibling list from off, in next_file order, as far as it can be
      read within fuel further links: an independent picture of the chain. */
  function Siblings(t: Tree, off: nat, fuel: nat): seq<nat>
    decreases fuel
  {
    match t.node(off)
    case None => []
    case Some(nd) =>
      [off] + (if nd.nextFile == 0 || fuel == 0 then [] else Siblings(t, nd.nextFile, fuel - 1))
  }

  /** s[k] is accepted and no sibling before it is. */
  predicate FirstAccepted(t: Tree, s: seq<nat>, k: int, name: seq<byte>, forRecovery: bool) {
    && 0 <= k < |s|
    && AcceptsAt(t, s[k], name, forRecovery)
    && forall j :: 0 <= j < k ==> !AcceptsAt(t, s[j], name, forRecovery)
  }

  /** No sibling of s is accepted. */
  predicate NoneAccepted(t: Tree, s: seq<nat>, name: seq<byte>, forRecovery: bool) {
    forall k :: 0 <= k < |s| ==> !AcceptsAt(t, s[k], name, forRecovery)
  }

  /** A scan that stays inside the buffer finds exactly the first accepted
      sibling in next_file order, and reports Absent exactly when no sibling
      on the chain is accepted. */
  lemma {:induction false} ScanFindsFirstAccepted(t: Tree, off: nat, name: seq<byte>, forRecovery: bool, fuel: nat)
    requires ScanSiblings(t, off, name, forRecovery, fuel) != Fault
    ensures ScanSiblings(t, off, name, forRecovery, fuel).Found? ==>
              exists k :: FirstAccepted(t, Siblings(t, off, fuel), k, name, forRecovery)
                       && Siblings(t, off, fuel)[k] == ScanSiblings(t, off, name, forRecovery, fuel).off
    ensures ScanSiblings(t, off, name, forRecovery, fuel).Absent? <==>
              NoneAccepted(t, Siblings(t, off, fuel), name, forRecovery)
    decreases fuel
  {
    var s := Siblings(t, off, fuel);
    var p := ScanSiblings(t, off, name, forRecovery, fuel);
    var nd := t.node(off).value;
    var acc := Accepts(nd, name, forRecovery);
    assert s[0] == off;
    if acc == Some(true) {
      assert FirstAccepted(t, s, 0, name, forRecovery);
    } else if nd.nextFile == 0 {
      assert s == [off];
    } else {
      var rest := Siblings(t, nd.nextFile, fuel - 1);
      assert s == [off] + rest;
      ScanFindsFirstAccepted(t, nd.nextFile, name, forRecovery, fuel - 1);
      if p.Found? {
        var k :| FirstAccepted(t, rest, k, name, forRecovery) && rest[k] == p.off;
        assert FirstAccepted(t, s, k + 1, name, forRecovery) by {
          forall j | 0 <= j < k + 1 ensures !AcceptsAt(t, s[j], name, forRecovery) {
            if j > 0 { assert s[j] == rest[j - 1]; }
          }
        }
      }
      if NoneAccepted(t, rest, name, forRecovery) {
        forall k | 0 <= k < |s| ensures !AcceptsAt(t, s[k], name, forRecovery) {
          if k > 0 { assert s[k] == rest[k - 1]; }
        }
      }
      if NoneAccepted(t, s, name, forRecovery) {
        forall k | 0 <= k < |rest| ensures !AcceptsAt(t, rest[k], name, forRecovery) {
          assert rest[k] == s[k + 1];
        }
      }
    }
  }

  /** lookup_tree's two calls to lookup_dir: the requested mode first, the
      other mode when the first finds nothing. */
  function FindNode(t: Tree, base: nat, name: seq<byte>, isRecovery: bool): (p: Probe)
    ensures p.Found? ==> AcceptsAt(t, p.off, name, isRecovery) || AcceptsAt(t, p.off, name, !isRecovery)
  {
    match LookupDirSpec(t, base, name, isRecovery)
    case Absent => LookupDirSpec(t, base, name, !isRecovery)
    case other => other
  }

  /** Mode precedence: when a child of base is accepted in the requested
      mode, the node found is the first such child; only when none is does
      the search in the other mode decide. A directory is accepted in both
      modes, a file only in the mode its recovery bit names. */
  lemma {:induction false} FindNodePrefersMode(t: Tree, base: nat, name: seq<byte>, isRecovery: bool)
    requires t.node(base).Some? && t.node(base).value.nextLevel != 0
    requires FindNode(t, base, name, isRecovery) != Fault
    ensures var s := Siblings(t, t.node(base).value.nextLevel, t.bound);
            var p := FindNode(t, base, name, isRecovery);
            && (!NoneAccepted(t, s, name, isRecovery) ==>
                  p.Found? && exists k :: FirstAccepted(t, s, k, name, isRecovery) && s[k] == p.off)
            && (NoneAccepted(t, s, name, isRecovery) ==>
                  p == LookupDirSpec(t, base, name, !isRecovery))
  {
    ScanFindsFirstAccepted(t, t.node(base).value.nextLevel, name, isRecovery, t.bound);
  }

  /** A directory is accepted whatever mode is asked for. */
  lemma {:induction false} DirectoryEitherMode(nd: Node, name: seq<byte>)
    requires !IsFile(nd)
    ensures Accepts(nd, name, true) == Accepts(nd, name, false)
  {
  }
}
