/** The statistics store: a map from OIDs to values, read by GET and GETNEXT and rewritten a subtree
    at a time (src/oidtree.cpp). */
module OidTree {
  import opened Common
  import opened Oids

  type OidMap = map<OID, int>

  // ---- GETNEXT ----

  ghost function Later(m: OidMap, o: OID): set<OID> {
    set k | k in m && Less(o, k)
  }

  ghost predicate IsLeast(keys: set<OID>, k: OID) {
    k in keys && forall j | j in keys :: j == k || Less(k, j)
  }

  // k is the first stored OID after o.
  ghost predicate IsNext(m: OidMap, o: OID, k: OID) {
    IsLeast(Later(m, o), k)
  }

  lemma LeastBelow(keys: set<OID>, k: OID, x: OID)
    requires IsLeast(keys, k) && Less(x, k)
    ensures forall j | j in keys :: Less(x, j)
  {
    forall j | j in keys
      ensures Less(x, j)
    {
      if j != k {
        LessIsTransitive(x, k, j);
      }
    }
  }

  lemma LeastExists(keys: set<OID>) returns (k: OID)
    requires keys != {}
    ensures IsLeast(keys, k)
    decreases |keys|
  {
    var x :| x in keys;
    var rest := keys - {x};
    if rest == {} {
      assert keys == {x};
      k := x;
    } else {
      k := LeastExists(rest);
      LessIsTotal(x, k);
      if Less(x, k) {
        LeastBelow(rest, k, x);
        k := x;
      }
      assert keys == rest + {x};
    }
  }

  lemma NextIsUnique(m: OidMap, o: OID, k: OID, k': OID)
    requires IsNext(m, o, k) && IsNext(m, o, k')
    ensures k == k'
  {
    if k != k' {
      LessIsAsymmetric(k, k');
    }
  }

  lemma NextExists(m: OidMap, o: OID)
    requires Later(m, o) != {}
    ensures exists k :: IsNext(m, o, k)
  {
    var k := LeastExists(Later(m, o));
    assert IsNext(m, o, k);
  }

  /** What GETNEXT answers for o (section 4.2.2 of RFC 3416). */
  ghost function NextKey(m: OidMap, o: OID): (next: Option<OID>)
    ensures next.None? <==> Later(m, o) == {}
    ensures next.Some? ==> IsNext(m, o, next.value)
  {
    if Later(m, o) == {} then None
    else
      NextExists(m, o);
      var k :| IsNext(m, o, k);
      Some(k)
  }

  lemma LaterShrinks(m: OidMap, o: OID, k: OID)
    requires IsNext(m, o, k)
    ensures Later(m, o) == Later(m, k) + {k} && k !in Later(m, k)
    ensures |Later(m, k)| < |Later(m, o)|
  {
    forall j | j in Later(m, k)
      ensures j in Later(m, o) && j != k
    {
      LessIsTransitive(o, k, j);
      LessIsAsymmetric(k, j);
    }
    assert Later(m, o) == Later(m, k) + {k};
  }

  /** A walk of `root` that has reached o: GETNEXT is fed its own answer until the answer leaves the
      descendants of root. */
  ghost function Walk(m: OidMap, root: OID, o: OID): seq<OID>
    decreases |Later(m, o)|
  {
    match NextKey(m, o)
    case None => []
    case Some(k) =>
      LaterShrinks(m, o, k);
      if root <= k then [k] + Walk(m, root, k) else []
  }

  ghost predicate Increasing(keys: seq<OID>) {
    forall i, j | 0 <= i < j < |keys| :: Less(keys[i], keys[j])
  }

  // If a descendant of root is stored after o, GETNEXT answers one, no later than it.
  lemma NextBelow(m: OidMap, root: OID, o: OID, k: OID)
    requires root <= o && k in m && root <= k && Less(o, k)
    ensures NextKey(m, o).Some?
    ensures var next := NextKey(m, o).value; root <= next && Less(o, next) && (next == k || Less(next, k))
  {
    assert k in Later(m, o);
    var next := NextKey(m, o).value;
    assert next in Later(m, o);
    if next != k {
      if root != o {
        AncestorComesFirst(root, o);
        LessIsTransitive(root, o, next);
      }
      DescendantsAreContiguous(root, next, k);
    }
  }

  lemma {:induction false} WalkFrom(m: OidMap, root: OID, o: OID)
    requires root <= o
    ensures Increasing(Walk(m, root, o))
    ensures forall k :: k in Walk(m, root, o) <==> k in m && root <= k && Less(o, k)
    decreases |Later(m, o)|
  {
    forall k | k in m && root <= k && Less(o, k)
      ensures NextKey(m, o).Some? && root <= NextKey(m, o).value
    {
      NextBelow(m, root, o, k);
    }
    var next := NextKey(m, o);
    if next.Some? && root <= next.value {
      var k := next.value;
      LaterShrinks(m, o, k);
      WalkFrom(m, root, k);
      assert forall j :: j in m && Less(o, j) <==> j in Later(m, o);
      assert forall j :: j in m && Less(k, j) <==> j in Later(m, k);
    }
  }

  /** A walk of any OID ends and yields every stored key strictly below it, once each, in increasing
      order, and nothing else. */
  lemma WalkIsComplete(m: OidMap, root: OID)
    ensures Increasing(Walk(m, root, root)) && Distinct(Walk(m, root, root))
    ensures forall k :: k in Walk(m, root, root) <==> k in m && root <= k && root != k
  {
    WalkFrom(m, root, root);
    var keys := Walk(m, root, root);
    forall i, j | 0 <= i < j < |keys|
      ensures keys[i] != keys[j]
    {
      LessIsAsymmetric(keys[i], keys[j]);
    }
    forall k | root <= k
      ensures Less(root, k) <==> root != k
    {
      if root != k {
        AncestorComesFirst(root, k);
      } else if Less(root, k) {
        LessIsAsymmetric(root, k);
      }
    }
  }

  // ---- walks of a store that changes ----

  /** A walk of `root` that has reached o, when the n-th GETNEXT from now on is answered by the store as
      it is by then, ms[n]. It has ended if it has fewer keys than there are stores. */
  ghost function MovingWalk(ms: seq<OidMap>, root: OID, o: OID): (keys: seq<OID>)
    ensures |keys| <= |ms|
  {
    if ms == [] then []
    else
      match NextKey(ms[0], o)
      case None => []
      case Some(k) => if root <= k then [k] + MovingWalk(ms[1..], root, k) else []
  }

  // Every answer was stored when it was given, below root, and after o.
  lemma {:induction false} MovingWalkAnswers(ms: seq<OidMap>, root: OID, o: OID)
    ensures var keys := MovingWalk(ms, root, o);
            && Increasing(keys)
            && forall n | 0 <= n < |keys| :: keys[n] in ms[n] && root <= keys[n] && Less(o, keys[n])
  {
    var keys := MovingWalk(ms, root, o);
    if keys != [] {
      MovingWalkAnswers(ms[1..], root, keys[0]);
      assert keys[1..] == MovingWalk(ms[1..], root, keys[0]);
      assert keys[0] in Later(ms[0], o);
      forall n | 1 <= n < |keys|
        ensures keys[n] in ms[n] && root <= keys[n] && Less(keys[0], keys[n]) && Less(o, keys[n])
      {
        assert keys[n] == keys[1..][n - 1] && ms[n] == ms[1..][n - 1];
        LessIsTransitive(o, keys[0], keys[n]);
      }
      assert forall i, j | 1 <= i < j < |keys| :: keys[i] == keys[1..][i - 1] && keys[j] == keys[1..][j - 1];
    }
  }

  // A key that is stored throughout is not skipped.
  lemma {:induction false} MovingWalkReaches(ms: seq<OidMap>, root: OID, o: OID, k: OID)
    requires root <= o && root <= k && Less(o, k) && |MovingWalk(ms, root, o)| < |ms|
    requires forall n | 0 <= n <= |MovingWalk(ms, root, o)| :: k in ms[n]
    ensures k in MovingWalk(ms, root, o)
  {
    NextBelow(ms[0], root, o, k);
    var next := NextKey(ms[0], o).value;
    if next != k {
      assert forall n | 0 <= n <= |MovingWalk(ms[1..], root, next)| :: ms[1..][n] == ms[n + 1];
      MovingWalkReaches(ms[1..], root, next, k);
    }
  }

  /** While the store changes between requests, the answers of a walk still increase, each is stored
      below root when it is given, and a walk that ends has every key below root that is stored
      throughout. */
  lemma MovingWalkIsComplete(ms: seq<OidMap>, root: OID)
    ensures var keys := MovingWalk(ms, root, root);
            && Increasing(keys)
            && (forall n | 0 <= n < |keys| :: keys[n] in ms[n] && root <= keys[n] && root != keys[n])
            && (|keys| < |ms| ==> forall k | root <= k && root != k && (forall n | 0 <= n <= |keys| :: k in ms[n]) ::
                  k in keys)
  {
    var keys := MovingWalk(ms, root, root);
    MovingWalkAnswers(ms, root, root);
    forall n | 0 <= n < |keys|
      ensures root != keys[n]
    {
      LessIsAsymmetric(root, keys[n]);
    }
    if |keys| < |ms| {
      forall k | root <= k && root != k && (forall n | 0 <= n <= |keys| :: k in ms[n])
        ensures k in keys
      {
        AncestorComesFirst(root, k);
        MovingWalkReaches(ms, root, root, k);
      }
    }
  }

  // ---- rewriting subtrees ----

  function Removed(m: OidMap, root: OID): OidMap {
    map k | k in m && !SubtreeContains(root, k) :: m[k]
  }

  // std::map::insert does not overwrite, so a key that survives the removal keeps its value.
  function Replaced(m: OidMap, root: OID, update: OidMap): OidMap {
    update + Removed(m, root)
  }

  ghost predicate KeysUnder(root: OID, m: OidMap) {
    forall k | k in m :: root <= k
  }

  // A stored key above root.
  ghost predicate HasAncestor(m: OidMap, root: OID) {
    exists k :: k in m && k <= root && k != root
  }

  function Get(m: OidMap, k: OID): Option<int> {
    if k in m then Some(m[k]) else None
  }

  lemma SameValues(a: OidMap, b: OidMap)
    requires forall k :: Get(a, k) == Get(b, k)
    ensures a == b
  {
    assert forall k :: k in a <==> Get(a, k).Some?;
    assert forall k :: k in b <==> Get(b, k).Some?;
    assert forall k | k in a :: Get(a, k).value == a[k] && Get(b, k).value == b[k];
  }

  lemma ReplacedAt(m: OidMap, root: OID, update: OidMap, k: OID)
    ensures Get(Replaced(m, root, update), k)
            == if k in m && !SubtreeContains(root, k) then Some(m[k]) else Get(update, k)
  {
  }

  /** A replacement gives exactly the update below root; elsewhere it keeps every value exactly when
      no stored key is a proper ancestor of root (an ancestor would be deleted). */
  lemma ReplaceIsExact(m: OidMap, root: OID, update: OidMap)
    requires KeysUnder(root, update)
    ensures forall k | root <= k :: Get(Replaced(m, root, update), k) == Get(update, k)
    ensures (forall k | !(root <= k) :: Get(Replaced(m, root, update), k) == Get(m, k)) <==> !HasAncestor(m, root)
  {
    forall k
      ensures Get(Replaced(m, root, update), k)
              == if k in m && !SubtreeContains(root, k) then Some(m[k]) else Get(update, k)
    {
      ReplacedAt(m, root, update, k);
    }
    if HasAncestor(m, root) {
      var k :| k in m && k <= root && k != root;
      assert Get(Replaced(m, root, update), k) != Get(m, k);
    }
  }

  /** A stored ancestor of the root is lost in a replacement. */
  lemma AncestorIsLost()
    ensures Get(Replaced(map[[1, 3] := 5], [1, 3, 6], map[]), [1, 3]) == None
  {
    assert SubtreeContains([1, 3, 6], [1, 3]);
  }

  lemma PrefixesOfOne(a: OID, b: OID, k: OID)
    ensures a <= k && b <= k ==> SubtreeContains(a, b)
    ensures a <= k && k <= b ==> a <= b
  {
    if a <= k && b <= k {
      assert a == k[..|a|] && b == k[..|b|];
      if |a| <= |b| {
        assert a == b[..|a|];
      } else {
        assert b == a[..|b|];
      }
    }
  }

  /** Replacements under incomparable roots commute. */
  lemma ReplacementsCommute(m: OidMap, r: OID, u: OidMap, r': OID, u': OidMap)
    requires KeysUnder(r, u) && KeysUnder(r', u') && !SubtreeContains(r, r')
    ensures Replaced(Replaced(m, r, u), r', u') == Replaced(Replaced(m, r', u'), r, u)
  {
    var a, b := Replaced(m, r, u), Replaced(m, r', u');
    forall k
      ensures Get(Replaced(a, r', u'), k) == Get(Replaced(b, r, u), k)
    {
      ReplacedAt(m, r, u, k);
      ReplacedAt(m, r', u', k);
      ReplacedAt(a, r', u', k);
      ReplacedAt(b, r, u, k);
      PrefixesOfOne(r, r', k);
      PrefixesOfOne(r', r, k);
    }
    SameValues(Replaced(a, r', u'), Replaced(b, r, u));
  }

  // ---- runs of updates from many handlers ----

  /** One locked update of the tree; `slot` is the root it works under. */
  datatype Write = Replace(slot: OID, update: OidMap) | Set(slot: OID, value: int) | Remove(slot: OID)

  function Apply(m: OidMap, w: Write): OidMap {
    match w
    case Replace(slot, update) => Replaced(m, slot, update)
    case Set(slot, value) => m[slot := value]
    case Remove(slot) => m - {slot}
  }

  function ApplyAll(m: OidMap, ws: seq<Write>): OidMap {
    if ws == [] then m else Apply(ApplyAll(m, Front(ws)), Last(ws))
  }

  // No slot is a prefix of another.
  ghost predicate Antichain(slots: set<OID>) {
    forall a, b | a in slots && b in slots && a != b :: !SubtreeContains(a, b)
  }

  ghost predicate WritesWithin(slots: set<OID>, ws: seq<Write>) {
    forall n | 0 <= n < |ws| :: ws[n].slot in slots && (ws[n].Replace? ==> KeysUnder(ws[n].slot, ws[n].update))
  }

  function Slice(m: OidMap, slot: OID): OidMap {
    map k | k in m && slot <= k :: m[k]
  }

  // What a write does to the keys under its slot.
  function Written(before: OidMap, w: Write): OidMap {
    match w
    case Replace(_, update) => update
    case Set(slot, value) => before[slot := value]
    case Remove(slot) => before - {slot}
  }

  /** What the writes to one slot, taken alone, make of it. */
  function Latest(ws: seq<Write>, slot: OID): OidMap {
    if ws == [] then map[]
    else
      var before := Latest(Front(ws), slot);
      if Last(ws).slot != slot then before
      else Written(before, Last(ws))
  }

  ghost predicate UnderSlots(slots: set<OID>, m: OidMap) {
    forall k | k in m :: exists s :: s in slots && s <= k
  }

  lemma NoAncestorOfSlot(slots: set<OID>, m: OidMap, slot: OID)
    requires Antichain(slots) && slot in slots && UnderSlots(slots, m)
    ensures !HasAncestor(m, slot)
  {
    if HasAncestor(m, slot) {
      var k :| k in m && k <= slot && k != slot;
      var s :| s in slots && s <= k;
      PrefixesOfOne(s, slot, k);
    }
  }

  lemma SliceAt(m: OidMap, slot: OID, k: OID)
    ensures Get(Slice(m, slot), k) == if slot <= k then Get(m, k) else None
  {
  }

  lemma {:induction false} DistinctCount(keys: seq<OID>, all: set<OID>)
    requires Distinct(keys) && forall k | k in keys :: k in all
    ensures |keys| <= |all|
  {
    if keys != [] {
      assert forall n | 0 <= n < |keys| - 1 :: keys[n] != Last(keys);
      DistinctCount(Front(keys), all - {Last(keys)});
    }
  }

  /** If the store only changes outside root, a walk of root ends, after at most one request more than
      there are keys below root, and lists exactly these. */
  lemma WalkOfSteadySlice(ms: seq<OidMap>, root: OID, slice: OidMap)
    requires forall n | 0 <= n < |ms| :: Slice(ms[n], root) == slice
    requires |slice| < |ms|
    ensures |MovingWalk(ms, root, root)| < |ms| && Increasing(MovingWalk(ms, root, root))
    ensures forall k :: k in MovingWalk(ms, root, root) <==> k in slice && root != k
  {
    MovingWalkIsComplete(ms, root);
    var keys := MovingWalk(ms, root, root);
    forall n, k | 0 <= n < |ms|
      ensures k in slice <==> k in ms[n] && root <= k
    {
      assert Slice(ms[n], root) == slice;
    }
    forall i, j | 0 <= i < j < |keys|
      ensures keys[i] != keys[j]
    {
      LessIsAsymmetric(keys[i], keys[j]);
    }
    DistinctCount(keys, slice.Keys);
  }

  lemma ApplyAt(slots: set<OID>, m: OidMap, w: Write, k: OID)
    requires Antichain(slots) && UnderSlots(slots, m) && WritesWithin(slots, [w])
    ensures Get(Apply(m, w), k) == if w.slot <= k then Get(Written(Slice(m, w.slot), w), k) else Get(m, k)
  {
    assert [w][0] == w;
    NoAncestorOfSlot(slots, m, w.slot);
    if w.Replace? {
      ReplaceIsExact(m, w.slot, w.update);
    }
  }

  lemma ApplyToOwnSlot(slots: set<OID>, m: OidMap, w: Write)
    requires Antichain(slots) && UnderSlots(slots, m) && WritesWithin(slots, [w])
    ensures Slice(Apply(m, w), w.slot) == Written(Slice(m, w.slot), w)
  {
    assert [w][0] == w;
    forall k
      ensures Get(Slice(Apply(m, w), w.slot), k) == Get(Written(Slice(m, w.slot), w), k)
    {
      ApplyAt(slots, m, w, k);
      SliceAt(Apply(m, w), w.slot, k);
    }
    SameValues(Slice(Apply(m, w), w.slot), Written(Slice(m, w.slot), w));
  }

  lemma ApplyToOtherSlot(slots: set<OID>, m: OidMap, w: Write, s: OID)
    requires Antichain(slots) && UnderSlots(slots, m) && WritesWithin(slots, [w]) && s in slots && s != w.slot
    ensures Slice(Apply(m, w), s) == Slice(m, s)
  {
    assert [w][0] == w;
    forall k
      ensures Get(Slice(Apply(m, w), s), k) == Get(Slice(m, s), k)
    {
      ApplyAt(slots, m, w, k);
      SliceAt(Apply(m, w), s, k);
      SliceAt(m, s, k);
      PrefixesOfOne(s, w.slot, k);
    }
    SameValues(Slice(Apply(m, w), s), Slice(m, s));
  }

  lemma ApplyStaysUnderSlots(slots: set<OID>, m: OidMap, w: Write)
    requires Antichain(slots) && UnderSlots(slots, m) && WritesWithin(slots, [w])
    ensures UnderSlots(slots, Apply(m, w))
  {
    assert [w][0] == w;
    forall k | k in Apply(m, w)
      ensures exists s :: s in slots && s <= k
    {
      ApplyAt(slots, m, w, k);
      assert w.slot <= k || k in m;
    }
  }

  /** Whole runs: however the writes of many handlers interleave, under every slot the tree shows
      what the writes to that slot alone would, and it holds nothing else. In particular no stored
      key is ever a proper ancestor of a slot, so no replacement deletes another handler's data. */
  lemma {:induction false} SlotsAreIndependent(slots: set<OID>, ws: seq<Write>)
    requires Antichain(slots) && WritesWithin(slots, ws)
    ensures UnderSlots(slots, ApplyAll(map[], ws))
    ensures forall s | s in slots ::
              Slice(ApplyAll(map[], ws), s) == Latest(ws, s) && !HasAncestor(ApplyAll(map[], ws), s)
  {
    if ws != [] {
      SlotsAreIndependent(slots, Front(ws));
      assert WritesWithin(slots, [Last(ws)]);
      var m, w := ApplyAll(map[], Front(ws)), Last(ws);
      ApplyStaysUnderSlots(slots, m, w);
      ApplyToOwnSlot(slots, m, w);
      forall s | s in slots && s != w.slot
        ensures Slice(Apply(m, w), s) == Slice(m, s)
      {
        ApplyToOtherSlot(slots, m, w, s);
      }
    }
    forall s | s in slots
      ensures !HasAncestor(ApplyAll(map[], ws), s)
    {
      NoAncestorOfSlot(slots, ApplyAll(map[], ws), s);
    }
  }

  lemma {:induction false} LatestIgnores(ws: seq<Write>, ws': seq<Write>, slot: OID)
    requires forall w | w in ws' :: w.slot != slot
    ensures Latest(ws + ws', slot) == Latest(ws, slot)
  {
    if ws' == [] {
      assert ws + ws' == ws;
    } else {
      assert Front(ws + ws') == ws + Front(ws') && Last(ws + ws') == Last(ws') && Last(ws') in ws';
      assert forall w | w in Front(ws') :: w in ws';
      LatestIgnores(ws, Front(ws'), slot);
    }
  }

  // From its own write on, a replacement is what its slot shows, while nothing else writes there.
  lemma ReplacementStands(before: seq<Write>, ws: seq<Write>, rest: seq<Write>, j: nat, p: nat)
    requires j < |ws| && ws[j].Replace? && |before| + j < p <= |before + ws + rest|
    requires forall k | j < k < |ws| :: ws[k].slot != ws[j].slot
    requires forall w | w in rest :: w.slot != ws[j].slot
    ensures Latest((before + ws + rest)[..p], ws[j].slot) == ws[j].update
  {
    var upTo := before + ws[..j] + [ws[j]];
    var after := (ws[j + 1..] + rest)[..p - |upTo|];
    assert (before + ws + rest)[..p] == upTo + after;
    LatestIgnores(upTo, after, ws[j].slot);
    assert Last(upTo) == ws[j];
  }

  // Until then its slot shows what it showed before the message.
  lemma SlotStands(before: seq<Write>, ws: seq<Write>, rest: seq<Write>, j: nat, p: nat)
    requires j < |ws| && |before| <= p <= |before| + j
    requires forall k | 0 <= k < j :: ws[k].slot != ws[j].slot
    ensures Latest((before + ws + rest)[..p], ws[j].slot) == Latest(before, ws[j].slot)
  {
    var first := ws[..p - |before|];
    assert (before + ws + rest)[..p] == before + first;
    LatestIgnores(before, first, ws[j].slot);
  }

  class OIDTree {
    var oidmap: OidMap

    constructor ()
      ensures oidmap == map[]
    {
      oidmap := map[];
    }

    /** get. */
    method GetValue(requested: OID) returns (found: bool, result: int)
      ensures found <==> requested in oidmap
      ensures found ==> result == oidmap[requested]
    {
      found, result := false, 0;
      if requested in oidmap {
        found, result := true, oidmap[requested];
      }
    }

    /** get_next: std::map::upper_bound, the first key after the one requested. */
    method GetNext(requested: OID) returns (found: bool, output: OID, result: int)
      ensures NextKey(oidmap, requested) == if found then Some(output) else None
      ensures found ==> output in oidmap && result == oidmap[output]
    {
      found, output, result := false, [], 0;
      var later := set k | k in oidmap && Less(requested, k);
      if later != {} {
        assert later == Later(oidmap, requested);
        NextExists(oidmap, requested);
        var k :| k in later && forall j | j in later :: j == k || Less(k, j);
        NextIsUnique(oidmap, requested, k, NextKey(oidmap, requested).value);
        found, output, result := true, k, oidmap[k];
      }
    }

    /** set. */
    method SetValue(key: OID, value: int)
      modifies this
      ensures oidmap == Apply(old(oidmap), Set(key, value))
    {
      oidmap := oidmap[key := value];
    }

    /** remove. */
    method RemoveKey(key: OID)
      modifies this
      ensures oidmap == Apply(old(oidmap), Remove(key))
    {
      oidmap := oidmap - {key};
    }

    /** remove_subtree: goes through a copy of the map. */
    method RemoveSubtree(root: OID)
      modifies this
      ensures oidmap == Removed(old(oidmap), root)
    {
      var tmp := oidmap;
      var todo := tmp.Keys;
      while todo != {}
        invariant todo <= tmp.Keys
        invariant oidmap == map k | k in tmp && (k in todo || !SubtreeContains(root, k)) :: tmp[k]
        decreases |todo|
      {
        var key :| key in todo;
        if SubtreeContains(root, key) {
          oidmap := oidmap - {key};
        }
        todo := todo - {key};
      }
    }

    /** replace_subtree. */
    method ReplaceSubtree(root: OID, update: OidMap)
      modifies this
      ensures oidmap == Apply(old(oidmap), Replace(root, update))
    {
      RemoveSubtree(root);
      oidmap := update + oidmap;
    }
  }
}
