// Dependencies between the layers of a video parameter set: which layers a layer needs, directly or through
// others, and which layers of an output layer set are therefore necessary
// (section F.7.4.3.1.1 of H.265).
module LayerDependencies {

  // For each layer, the layers it refers to directly.
  type Refs = seq<seq<nat>>

  // Layers refer to lower layers only.
  ghost predicate Lower(refs: Refs) {
    forall r, j :: 0 <= r < |refs| && 0 <= j < |refs[r]| ==> refs[r][j] < r
  }

  ghost predicate Increasing(s: seq<nat>) {
    forall a, b :: 0 <= a < b < |s| ==> s[a] < s[b]
  }

  // s lists the members of a set in ascending order.
  ghost predicate Enumerates(s: seq<nat>, members: set<nat>) {
    Increasing(s) && forall m :: m in s <==> m in members
  }

  lemma {:induction false} EnumerationUnique(s: seq<nat>, t: seq<nat>, members: set<nat>)
    requires Enumerates(s, members) && Enumerates(t, members)
    ensures s == t
    decreases |s|
  {
    assert t != [] ==> t[0] in s;
    if s != [] {
      var x := s[|s| - 1];
      assert x in t && t[|t| - 1] in s;
      var s', t' := s[..|s| - 1], t[..|t| - 1];
      assert t[|t| - 1] == x;
      DropLast(s, members);
      DropLast(t, members);
      EnumerationUnique(s', t', members - {x});
      assert s == s' + [x] && t == t' + [x];
    }
  }

  lemma DropLast(s: seq<nat>, members: set<nat>)
    requires s != [] && Enumerates(s, members)
    ensures Enumerates(s[..|s| - 1], members - {s[|s| - 1]})
  {
    var rest := s[..|s| - 1];
    forall m
      ensures m in rest <==> m in members - {s[|s| - 1]}
    {
      if m in members - {s[|s| - 1]} {
        var i :| 0 <= i < |s| && s[i] == m;
        assert rest[i] == m;
      }
    }
  }

  // A chain of direct references.
  ghost predicate IsChain(refs: Refs, p: seq<nat>) {
    forall i: nat :: i + 1 < |p| ==> Link(refs, p, i)
  }

  ghost predicate Link(refs: Refs, p: seq<nat>, i: nat)
    requires i + 1 < |p|
  {
    p[i] < |refs| && p[i + 1] in refs[p[i]]
  }

  // Layer r needs layer k, in one or more steps.
  ghost predicate Reaches(refs: Refs, r: nat, k: nat) {
    exists p: seq<nat> :: |p| >= 2 && p[0] == r && p[|p| - 1] == k && IsChain(refs, p)
  }

  lemma ReachesByEdge(refs: Refs, r: nat, k: nat)
    requires r < |refs| && k in refs[r]
    ensures Reaches(refs, r, k)
  {
    assert Link(refs, [r, k], 0);
    assert IsChain(refs, [r, k]);
  }

  lemma ReachesByStep(refs: Refs, r: nat, q: nat, k: nat)
    requires r < |refs| && q in refs[r] && Reaches(refs, q, k)
    ensures Reaches(refs, r, k)
  {
    var p: seq<nat> :| |p| >= 2 && p[0] == q && p[|p| - 1] == k && IsChain(refs, p);
    var p' := [r] + p;
    forall i: nat | i + 1 < |p'|
      ensures Link(refs, p', i)
    {
      if i > 0 {
        assert Link(refs, p, i - 1);
      }
    }
    assert IsChain(refs, p');
  }

  lemma FirstStep(refs: Refs, r: nat, k: nat) returns (q: nat)
    requires Reaches(refs, r, k)
    ensures r < |refs| && q in refs[r] && (q == k || Reaches(refs, q, k))
  {
    var p: seq<nat> :| |p| >= 2 && p[0] == r && p[|p| - 1] == k && IsChain(refs, p);
    q := p[1];
    assert Link(refs, p, 0);
    if |p| > 2 {
      var p' := p[1..];
      forall i: nat | i + 1 < |p'|
        ensures Link(refs, p', i)
      {
        assert Link(refs, p, i + 1);
      }
      assert IsChain(refs, p');
    }
  }

  lemma {:induction false} ReachesDown(refs: Refs, r: nat, k: nat)
    requires Lower(refs) && Reaches(refs, r, k)
    ensures k < r
    decreases r
  {
    var q := FirstStep(refs, r, k);
    if q != k {
      ReachesDown(refs, q, k);
    }
  }

  // Layer r needs layer k, in one or more steps, all of which start from a layer in ids.
  ghost predicate Via(refs: Refs, ids: seq<nat>, r: nat, k: nat)
    requires Lower(refs) && r < |refs|
    decreases r
  {
    exists j :: 0 <= j < |refs[r]| && (refs[r][j] == k || (refs[r][j] in ids && Via(refs, ids, refs[r][j], k)))
  }

  // When all layers are in ids, nothing is lost.
  lemma {:induction false} ViaIsReaches(refs: Refs, ids: seq<nat>, r: nat, k: nat)
    requires Lower(refs) && r < |refs| && (forall q: nat :: q < r ==> q in ids)
    ensures Via(refs, ids, r, k) <==> Reaches(refs, r, k)
    decreases r
  {
    if Via(refs, ids, r, k) {
      var j :| 0 <= j < |refs[r]| &&
               (refs[r][j] == k || (refs[r][j] in ids && Via(refs, ids, refs[r][j], k)));
      if refs[r][j] == k {
        ReachesByEdge(refs, r, k);
      } else {
        ViaIsReaches(refs, ids, refs[r][j], k);
        ReachesByStep(refs, r, refs[r][j], k);
      }
    }
    if Reaches(refs, r, k) {
      var q := FirstStep(refs, r, k);
      var j :| 0 <= j < |refs[r]| && refs[r][j] == q;
      if q != k {
        ViaIsReaches(refs, ids, q, k);
      }
    }
  }

  // ----- When the derivation is right

  // The reference lists of a parameter set with a number of layers, in a table of n rows.
  ghost predicate WellFormed(refs: Refs, layers: nat, n: nat) {
    |refs| == n && Lower(refs) && forall r :: layers <= r < n ==> refs[r] == []
  }

  ghost predicate ValidIds(ids: seq<nat>, n: nat) {
    |ids| >= 1 && ids[0] == 0 && Increasing(ids) && forall i :: 0 <= i < |ids| ==> ids[i] < n
  }

  // The dependencies of layer identifiers are those of the layers that carry them. References are
  // stored by layer index, and read by layer identifier.
  ghost predicate Faithful(refs: Refs, ids: seq<nat>)
    requires Lower(refs) && ValidIds(ids, |refs|)
  {
    forall a, b :: 0 <= a < |ids| && 0 <= b < |ids| ==>
      (Via(refs, ids, ids[a], ids[b]) <==> Reaches(refs, a, b))
  }

  ghost predicate Identity(ids: seq<nat>) {
    forall i :: 0 <= i < |ids| ==> ids[i] == i
  }

  lemma IdentityIsFaithful(refs: Refs, ids: seq<nat>)
    requires ValidIds(ids, |refs|) && WellFormed(refs, |ids|, |refs|) && Identity(ids)
    ensures Faithful(refs, ids)
  {
    forall a, b | 0 <= a < |ids| && 0 <= b < |ids|
      ensures Via(refs, ids, ids[a], ids[b]) <==> Reaches(refs, a, b)
    {
      assert ids[a] == a && ids[b] == b;
      IdentityCloses(refs, ids, a, b);
    }
  }

  lemma {:induction false} IdsAtLeastIndexes(ids: seq<nat>, i: nat)
    requires Increasing(ids) && i < |ids|
    ensures ids[i] >= i
  {
    if i > 0 {
      IdsAtLeastIndexes(ids, i - 1);
    }
  }

  // A set of references that goes wrong for identifiers that are not the layer indexes: one layer, refers to
  // the base layer.
  lemma OthersAreNot(ids: seq<nat>, n: nat) returns (refs: Refs)
    requires ValidIds(ids, n) && !Identity(ids)
    ensures WellFormed(refs, |ids|, n) && !Faithful(refs, ids)
  {
    var m :| 0 <= m < |ids| && ids[m] != m;
    IdsAtLeastIndexes(ids, m);
    refs := seq(n, r => if r == m then [0] else []);
    assert refs[m] == [0];
    ReachesByEdge(refs, m, 0);
    assert refs[ids[m]] == [];
    assert !Via(refs, ids, ids[m], ids[0]);
  }

  // The derivation is right for all dependencies if and only if the identifiers are the layer indexes.
  lemma FaithfulExactly(ids: seq<nat>, n: nat)
    requires ValidIds(ids, n)
    ensures (forall refs :: WellFormed(refs, |ids|, n) ==> Faithful(refs, ids)) <==> Identity(ids)
  {
    if Identity(ids) {
      forall refs | WellFormed(refs, |ids|, n)
        ensures Faithful(refs, ids)
      {
        IdentityIsFaithful(refs, ids);
      }
    } else {
      var refs := OthersAreNot(ids, n);
    }
  }

  // Layer b as the derivation sees it from layer a: in the row of the identifier of a, some reference is the identifier
  // of b, or of a layer that reaches b.
  ghost predicate SeenFrom(refs: Refs, ids: seq<nat>, a: nat, b: nat)
    requires a < |ids| && b < |ids| && ValidIds(ids, |refs|)
  {
    exists j :: 0 <= j < |refs[ids[a]]| && ReachesAs(refs, ids, refs[ids[a]][j], b)
  }

  ghost predicate ReachesAs(refs: Refs, ids: seq<nat>, id: nat, b: nat)
    requires b < |ids|
  {
    id == ids[b] || exists d :: 0 <= d < |ids| && ids[d] == id && Reaches(refs, d, b)
  }

  // For a single table, whatever the identifiers are, the derivation is right if and only if every row, read by
  // identifier, stands for the references of its layer.
  lemma FaithfulTable(refs: Refs, ids: seq<nat>)
    requires Lower(refs) && ValidIds(ids, |refs|)
    ensures Faithful(refs, ids) <==>
            forall a, b :: 0 <= a < |ids| && 0 <= b < |ids| ==> (SeenFrom(refs, ids, a, b) <==> Reaches(refs, a, b))
  {
    if Faithful(refs, ids) {
      forall a, b | 0 <= a < |ids| && 0 <= b < |ids|
        ensures SeenFrom(refs, ids, a, b) <==> Reaches(refs, a, b)
      {
        RowIsVia(refs, ids, a, b);
      }
    }
    if forall a, b :: 0 <= a < |ids| && 0 <= b < |ids| ==> (SeenFrom(refs, ids, a, b) <==> Reaches(refs, a, b)) {
      forall a, b | 0 <= a < |ids| && 0 <= b < |ids|
        ensures Via(refs, ids, ids[a], ids[b]) <==> Reaches(refs, a, b)
      {
        RowsClose(refs, ids, a, b);
      }
    }
  }

  // One row, if the flags of the lower identifiers are right.
  lemma RowIsVia(refs: Refs, ids: seq<nat>, a: nat, b: nat)
    requires Lower(refs) && ValidIds(ids, |refs|) && a < |ids| && b < |ids|
    requires forall d :: 0 <= d < a ==> (Via(refs, ids, ids[d], ids[b]) <==> Reaches(refs, d, b))
    ensures Via(refs, ids, ids[a], ids[b]) <==> SeenFrom(refs, ids, a, b)
  {
    hide Reaches;
    var r := ids[a];
    forall j | 0 <= j < |refs[r]|
      ensures refs[r][j] == ids[b] || (refs[r][j] in ids && Via(refs, ids, refs[r][j], ids[b])) <==>
              ReachesAs(refs, ids, refs[r][j], b)
    {
      if refs[r][j] in ids {
        var d :| 0 <= d < |ids| && ids[d] == refs[r][j];
        assert d < a;
      }
    }
  }

  lemma {:induction false} RowsClose(refs: Refs, ids: seq<nat>, a: nat, b: nat)
    requires Lower(refs) && ValidIds(ids, |refs|) && a < |ids| && b < |ids|
    requires forall a, b :: 0 <= a < |ids| && 0 <= b < |ids| ==> (SeenFrom(refs, ids, a, b) <==> Reaches(refs, a, b))
    ensures Via(refs, ids, ids[a], ids[b]) <==> Reaches(refs, a, b)
    decreases a
  {
    hide Via, Reaches, SeenFrom;
    forall d | 0 <= d < a
      ensures Via(refs, ids, ids[d], ids[b]) <==> Reaches(refs, d, b)
    {
      RowsClose(refs, ids, d, b);
    }
    RowIsVia(refs, ids, a, b);
  }

  // Once the identifiers are the layer indexes, the flags are the closure, row by row.
  lemma IdentityCloses(refs: Refs, ids: seq<nat>, r: nat, k: nat)
    requires ValidIds(ids, |refs|) && WellFormed(refs, |ids|, |refs|) && Identity(ids) && r < |refs|
    ensures r in ids && Via(refs, ids, r, k) <==> Reaches(refs, r, k)
  {
    if r < |ids| {
      assert ids[r] == r;
      forall q: nat | q < r
        ensures q in ids
      {
        assert ids[q] == q;
      }
      ViaIsReaches(refs, ids, r, k);
    } else if Reaches(refs, r, k) {
      var q := FirstStep(refs, r, k);
    }
  }

  // ----- The object

  lemma EarlierIds(ids: seq<nat>, i: nat, q: nat)
    requires Increasing(ids) && i < |ids| && q < ids[i]
    ensures q in ids <==> q in ids[..i]
  {
    if q in ids {
      var j :| 0 <= j < |ids| && ids[j] == q;
      assert j < i;
      assert ids[..i][j] == q;
    }
  }

  // The part of TComVPS about layers. maxIds is MAX_NUM_LAYER_IDS.
  class Vps {
    const maxIds: nat
    const recursiveRefLayerFlag: array2<bool>
    const numberRefLayers: array<nat>
    const predictedLayerId: array2<nat>
    const numPredictedLayers: array<nat>
    var refLayerId: Refs
    var layerIdInNuh: seq<nat>
    var layerIdIncludedFlag: seq<seq<bool>>
    var layerSetLayerIdList: seq<seq<nat>>
    var numLayerInIdList: seq<nat>
    var outputLayerSetIdx: seq<nat>
    var outputLayerFlag: seq<seq<bool>>
    var necessaryLayerFlag: seq<seq<bool>>
    var numNecessaryLayers: seq<nat>

    constructor (maxIds: nat)
      ensures Shape() && this.maxIds == maxIds
      ensures fresh(recursiveRefLayerFlag) && fresh(predictedLayerId) && fresh(numPredictedLayers) && fresh(numberRefLayers)
      ensures forall r, k :: 0 <= r < maxIds && 0 <= k < maxIds ==> !recursiveRefLayerFlag[r, k]
      ensures layerSetLayerIdList == [] && numLayerInIdList == [] && necessaryLayerFlag == [] && numNecessaryLayers == []
    {
      this.maxIds := maxIds;
      recursiveRefLayerFlag := new bool[maxIds, maxIds]((r, k) => false);
      numberRefLayers := new nat[maxIds](i => 0);
      predictedLayerId := new nat[maxIds, maxIds]((r, k) => 0);
      numPredictedLayers := new nat[maxIds](i => 0);
      refLayerId, layerIdInNuh, layerIdIncludedFlag := [], [], [];
      layerSetLayerIdList, numLayerInIdList, outputLayerSetIdx, outputLayerFlag := [], [], [], [];
      necessaryLayerFlag, numNecessaryLayers := [], [];
    }

    ghost predicate Shape() {
      recursiveRefLayerFlag.Length0 == recursiveRefLayerFlag.Length1 == maxIds &&
      predictedLayerId.Length0 == predictedLayerId.Length1 == maxIds &&
      numberRefLayers.Length == maxIds && numPredictedLayers.Length == maxIds &&
      numberRefLayers != numPredictedLayers
    }

    ghost predicate ValidRefs()
      reads this
    {
      WellFormed(refLayerId, |layerIdInNuh|, maxIds) && ValidIds(layerIdInNuh, maxIds)
    }

    // The layers that layer r needs, according to the flags.
    ghost function Needed(r: nat): set<nat>
      requires Shape() && r < maxIds
      reads recursiveRefLayerFlag
    {
      set k: nat | k < maxIds && recursiveRefLayerFlag[r, k]
    }

    // The layers above layer r that need it, according to the flags.
    ghost function NeedingAbove(r: nat): set<nat>
      requires Shape() && r < maxIds
      reads recursiveRefLayerFlag
    {
      set j: nat | r < j < maxIds && recursiveRefLayerFlag[j, r]
    }

    // The layers that reach layer r.
    ghost function Reaching(r: nat): set<nat>
      reads this
    {
      set j: nat | j < maxIds && Reaches(refLayerId, j, r)
    }

    // The flags are the transitive closure of the references.
    ghost predicate Closed()
      requires Shape()
      reads this, recursiveRefLayerFlag
    {
      forall r, k :: 0 <= r < maxIds && 0 <= k < maxIds ==>
        (recursiveRefLayerFlag[r, k] <==> Reaches(refLayerId, r, k))
    }

    // The reference lists, from the dependency flags dep[i][j] with j < i.
    method ReadDependencies(dep: seq<seq<bool>>, layers: nat)
      requires 1 <= layers <= maxIds && |dep| == layers && forall i :: 0 <= i < layers ==> |dep[i]| == i
      modifies this`refLayerId
      ensures WellFormed(refLayerId, layers, maxIds)
      ensures forall i, j: nat :: 0 <= i < layers ==> (j in refLayerId[i] <==> j < i && dep[i][j])
      ensures forall i :: 0 <= i < layers ==> Increasing(refLayerId[i])
    {
      refLayerId := seq(maxIds, i => []);
      for i := 1 to layers
        invariant |refLayerId| == maxIds && Lower(refLayerId)
        invariant forall r :: i <= r < maxIds ==> refLayerId[r] == []
        invariant refLayerId[0] == []
        invariant forall r, j: nat :: 0 <= r < i ==> (j in refLayerId[r] <==> j < r && dep[r][j])
        invariant forall r :: 0 <= r < i ==> Increasing(refLayerId[r])
      {
        var row: seq<nat> := [];
        for j := 0 to i
          invariant Increasing(row) && forall k :: 0 <= k < |row| ==> row[k] < j
          invariant forall m: nat :: m in row <==> m < j && dep[i][m]
        {
          if dep[i][j] {
            row := row + [j];
          }
        }
        refLayerId := refLayerId[i := row];
      }
    }

    // setRefLayersFlags: one step of the closure.
    method SetRefLayersFlags(cur: nat)
      requires Shape() && cur < maxIds && |refLayerId| == maxIds && Lower(refLayerId)
      modifies recursiveRefLayerFlag
      ensures forall r, k :: 0 <= r < maxIds && 0 <= k < maxIds && r != cur ==>
                recursiveRefLayerFlag[r, k] == old(recursiveRefLayerFlag[r, k])
      ensures forall k :: 0 <= k < maxIds ==>
                (recursiveRefLayerFlag[cur, k] <==>
                 (old(recursiveRefLayerFlag[cur, k]) ||
                  exists j :: 0 <= j < |refLayerId[cur]| &&
                    (refLayerId[cur][j] == k || old(recursiveRefLayerFlag[refLayerId[cur][j], k]))))
    {
      for i := 0 to |refLayerId[cur]|
        invariant forall r, k :: 0 <= r < maxIds && 0 <= k < maxIds && r != cur ==>
                    recursiveRefLayerFlag[r, k] == old(recursiveRefLayerFlag[r, k])
        invariant forall k :: 0 <= k < maxIds ==>
                    (recursiveRefLayerFlag[cur, k] <==>
                     (old(recursiveRefLayerFlag[cur, k]) ||
                      exists j :: 0 <= j < i &&
                        (refLayerId[cur][j] == k || old(recursiveRefLayerFlag[refLayerId[cur][j], k]))))
      {
        var ref := refLayerId[cur][i];
        label before:
        recursiveRefLayerFlag[cur, ref] := true;
        for k := 0 to maxIds
          invariant forall r, m :: 0 <= r < maxIds && 0 <= m < maxIds && r != cur ==>
                      recursiveRefLayerFlag[r, m] == old(recursiveRefLayerFlag[r, m])
          invariant forall m :: k <= m < maxIds ==>
                      (recursiveRefLayerFlag[cur, m] <==> old@before(recursiveRefLayerFlag[cur, m]) || m == ref)
          invariant forall m :: 0 <= m < k ==>
                      (recursiveRefLayerFlag[cur, m] <==>
                       old@before(recursiveRefLayerFlag[cur, m]) || m == ref || old(recursiveRefLayerFlag[ref, m]))
        {
          recursiveRefLayerFlag[cur, k] := recursiveRefLayerFlag[cur, k] || recursiveRefLayerFlag[ref, k];
        }
      }
    }

    method CountRow(r: nat) returns (n: nat)
      requires Shape() && r < maxIds
      ensures n == |Needed(r)|
    {
      n := 0;
      for j := 0 to maxIds
        invariant n == |set k: nat | k < j && recursiveRefLayerFlag[r, k]|
      {
        ghost var before := set k: nat | k < j && recursiveRefLayerFlag[r, k];
        assert (set k: nat | k < j + 1 && recursiveRefLayerFlag[r, k]) ==
               if recursiveRefLayerFlag[r, j] then before + {j} else before;
        n := n + if recursiveRefLayerFlag[r, j] then 1 else 0;
      }
    }

    lemma FlagsAreClosed()
      requires Shape() && ValidRefs() && Identity(layerIdInNuh)
      requires forall r, k :: 0 <= r < maxIds && 0 <= k < maxIds ==>
                (recursiveRefLayerFlag[r, k] <==> r in layerIdInNuh && Via(refLayerId, layerIdInNuh, r, k))
      ensures Closed()
    {
      forall r, k | 0 <= r < maxIds && 0 <= k < maxIds
        ensures recursiveRefLayerFlag[r, k] <==> Reaches(refLayerId, r, k)
      {
        IdentityCloses(refLayerId, layerIdInNuh, r, k);
      }
    }

    // setNumRefLayers, on a parameter set without flags.
    method SetNumRefLayers()
      requires Shape() && ValidRefs()
      requires forall r, k :: 0 <= r < maxIds && 0 <= k < maxIds ==> !recursiveRefLayerFlag[r, k]
      modifies recursiveRefLayerFlag, numberRefLayers
      ensures forall r, k :: 0 <= r < maxIds && 0 <= k < maxIds ==>
                (recursiveRefLayerFlag[r, k] <==> r in layerIdInNuh && Via(refLayerId, layerIdInNuh, r, k))
      ensures forall i :: 0 <= i < |layerIdInNuh| ==> numberRefLayers[layerIdInNuh[i]] == |Needed(layerIdInNuh[i])|
      ensures Identity(layerIdInNuh) ==> Closed()
    {
      forall r | 0 <= r < maxIds {
        numberRefLayers[r] := 0;
      }
      NoRows();
      hide FlagsUpTo, CountsUpTo, ValidRefs;
      for i := 0 to |layerIdInNuh|
        invariant ValidRefs() && FlagsUpTo(i) && CountsUpTo(i)
      {
        SetRow(i);
        CountLayer(i);
      }
      AllRows();
      if Identity(layerIdInNuh) {
        FlagsAreClosed();
      }
    }

    // The rows of the first i layers have their flags, the others none.
    ghost predicate FlagsUpTo(i: nat)
      requires Shape() && ValidRefs() && i <= |layerIdInNuh|
      reads this, recursiveRefLayerFlag
    {
      forall r, k :: 0 <= r < maxIds && 0 <= k < maxIds ==>
        (recursiveRefLayerFlag[r, k] <==> r in layerIdInNuh[..i] && Via(refLayerId, layerIdInNuh, r, k))
    }

    // The first i layers are counted, the others not.
    ghost predicate CountsUpTo(i: nat)
      requires Shape() && ValidRefs() && i <= |layerIdInNuh|
      reads this, recursiveRefLayerFlag, numberRefLayers
    {
      (forall j :: 0 <= j < i ==> numberRefLayers[layerIdInNuh[j]] == |Needed(layerIdInNuh[j])|) &&
      forall j :: i <= j < |layerIdInNuh| ==> numberRefLayers[layerIdInNuh[j]] == 0
    }

    lemma NoRows()
      requires Shape() && ValidRefs()
      requires forall r, k :: 0 <= r < maxIds && 0 <= k < maxIds ==> !recursiveRefLayerFlag[r, k]
      requires forall r :: 0 <= r < maxIds ==> numberRefLayers[r] == 0
      ensures FlagsUpTo(0) && CountsUpTo(0)
    {
    }

    lemma AllRows()
      requires Shape() && ValidRefs() && FlagsUpTo(|layerIdInNuh|) && CountsUpTo(|layerIdInNuh|)
      ensures forall r, k :: 0 <= r < maxIds && 0 <= k < maxIds ==>
                (recursiveRefLayerFlag[r, k] <==> r in layerIdInNuh && Via(refLayerId, layerIdInNuh, r, k))
      ensures forall i :: 0 <= i < |layerIdInNuh| ==> numberRefLayers[layerIdInNuh[i]] == |Needed(layerIdInNuh[i])|
    {
      hide Via;
      assert layerIdInNuh[..|layerIdInNuh|] == layerIdInNuh;
    }

    // The row of one more layer.
    method SetRow(i: nat)
      requires Shape() && ValidRefs() && i < |layerIdInNuh| && FlagsUpTo(i) && CountsUpTo(i)
      modifies recursiveRefLayerFlag
      ensures FlagsUpTo(i + 1) && CountsUpTo(i)
    {
      var id := layerIdInNuh[i];
      assert id !in layerIdInNuh[..i];
      label before:
      SetRefLayersFlags(id);
      forall j | 0 <= j < |refLayerId[id]|
        ensures refLayerId[id][j] in layerIdInNuh <==> refLayerId[id][j] in layerIdInNuh[..i]
      {
        EarlierIds(layerIdInNuh, i, refLayerId[id][j]);
      }
      forall k | 0 <= k < maxIds
        ensures recursiveRefLayerFlag[id, k] <==> Via(refLayerId, layerIdInNuh, id, k)
      {
        assert !old@before(recursiveRefLayerFlag[id, k]);
      }
      hide Via, WellFormed;
      assert layerIdInNuh[..i + 1] == layerIdInNuh[..i] + [id];
      forall j | 0 <= j < i
        ensures Needed(layerIdInNuh[j]) == old@before(Needed(layerIdInNuh[j])) && layerIdInNuh[j] != id
      {
      }
    }

    // The count of one more layer.
    method CountLayer(i: nat)
      requires Shape() && ValidRefs() && i < |layerIdInNuh| && FlagsUpTo(i + 1) && CountsUpTo(i)
      modifies numberRefLayers
      ensures FlagsUpTo(i + 1) && CountsUpTo(i + 1)
    {
      hide FlagsUpTo, WellFormed;
      var id := layerIdInNuh[i];
      var n := CountRow(id);
      assert forall j :: 0 <= j < |layerIdInNuh| && j != i ==> layerIdInNuh[j] != id;
      numberRefLayers[id] := numberRefLayers[id] + n;
    }

    // The list of the layers predicted from a layer.
    ghost function Predicted(r: nat): (s: seq<nat>)
      requires Shape() && r < maxIds && numPredictedLayers[r] <= maxIds
      reads predictedLayerId, numPredictedLayers
    {
      var n := numPredictedLayers[r];
      seq(n, i requires 0 <= i < n <= maxIds == predictedLayerId.Length0 == predictedLayerId.Length1 && r < maxIds
               reads predictedLayerId => predictedLayerId[r, i])
    }

    ghost predicate PredictedRow(r: nat, members: set<nat>)
      requires Shape() && r < maxIds
      reads predictedLayerId, numPredictedLayers
    {
      numPredictedLayers[r] <= maxIds && Enumerates(Predicted(r), members)
    }

    method SetPredictedRow(id: nat)
      requires Shape() && id < maxIds
      modifies predictedLayerId, numPredictedLayers
      ensures PredictedRow(id, NeedingAbove(id))
      ensures forall r :: 0 <= r < maxIds && r != id ==> numPredictedLayers[r] == old(numPredictedLayers[r])
      ensures forall r, k :: 0 <= r < maxIds && 0 <= k < maxIds && r != id ==>
                predictedLayerId[r, k] == old(predictedLayerId[r, k])
    {
      var predIdx := 0;
      ghost var row: seq<nat> := [];
      for j := id + 1 to maxIds
        invariant |row| == predIdx < j && forall i :: 0 <= i < predIdx ==> predictedLayerId[id, i] == row[i] < j
        invariant forall r :: 0 <= r < maxIds ==> numPredictedLayers[r] == old(numPredictedLayers[r])
        invariant Increasing(row)
        invariant forall m: nat :: m in row <==> id < m < j && recursiveRefLayerFlag[m, id]
        invariant forall r, k :: 0 <= r < maxIds && 0 <= k < maxIds && r != id ==>
                    predictedLayerId[r, k] == old(predictedLayerId[r, k])
      {
        if recursiveRefLayerFlag[j, id] {
          predictedLayerId[id, predIdx] := j;
          predIdx := predIdx + 1;
          row := row + [j];
        }
      }
      numPredictedLayers[id] := predIdx;
      assert Predicted(id) == row;
    }

    // On closed flags, the lists of all layers are those of the layers that reach them.
    lemma PredictedAreReaching()
      requires Shape() && ValidRefs() && Identity(layerIdInNuh) && Closed()
      requires forall i :: 0 <= i < |layerIdInNuh| - 1 ==>
                 PredictedRow(layerIdInNuh[i], NeedingAbove(layerIdInNuh[i]))
      requires numPredictedLayers[layerIdInNuh[|layerIdInNuh| - 1]] == 0
      ensures forall r :: 0 <= r < |layerIdInNuh| ==>
                PredictedRow(r, Reaching(r))
    {
      var layers := |layerIdInNuh|;
      forall r | 0 <= r < layers
        ensures PredictedRow(r, Reaching(r))
      {
        var s := Reaching(r);
        forall j: nat | j in s
          ensures r < j < layers
        {
          ReachesDown(refLayerId, j, r);
          var q := FirstStep(refLayerId, j, r);
        }
        if r < layers - 1 {
          assert s == NeedingAbove(layerIdInNuh[r]);
        } else {
          assert s == {} && Predicted(r) == [];
        }
      }
    }

    // setPredictedLayerIds.
    method SetPredictedLayerIds()
      requires Shape() && ValidRefs()
      modifies predictedLayerId, numPredictedLayers
      ensures forall i :: 0 <= i < |layerIdInNuh| - 1 ==>
                PredictedRow(layerIdInNuh[i], NeedingAbove(layerIdInNuh[i]))
      ensures numPredictedLayers[layerIdInNuh[|layerIdInNuh| - 1]] == 0
      ensures Identity(layerIdInNuh) && Closed() ==>
                forall r :: 0 <= r < |layerIdInNuh| ==>
                  PredictedRow(r, Reaching(r))
    {
      ghost var layers := |layerIdInNuh|;
      for i := 0 to |layerIdInNuh| - 1
        invariant forall a :: 0 <= a < i ==>
                    PredictedRow(layerIdInNuh[a], NeedingAbove(layerIdInNuh[a]))
      {
        label before:
        SetPredictedRow(layerIdInNuh[i]);
        forall a | 0 <= a < i
          ensures PredictedRow(layerIdInNuh[a], NeedingAbove(layerIdInNuh[a]))
        {
          assert layerIdInNuh[a] != layerIdInNuh[i];
          assert Predicted(layerIdInNuh[a]) == old@before(Predicted(layerIdInNuh[a]));
        }
      }
      label before:
      numPredictedLayers[layerIdInNuh[|layerIdInNuh| - 1]] := 0;
      forall a | 0 <= a < layers - 1
        ensures PredictedRow(layerIdInNuh[a], NeedingAbove(layerIdInNuh[a]))
      {
        assert Predicted(layerIdInNuh[a]) == old@before(Predicted(layerIdInNuh[a]));
      }
      if Identity(layerIdInNuh) && Closed() {
        PredictedAreReaching();
      }
    }

    // The layers of one layer set.
    method AddIncludedLayers(i: nat, maxLayerId: nat)
      requires i < |layerIdIncludedFlag| && |layerIdIncludedFlag[i]| > maxLayerId
      requires i < |layerSetLayerIdList| && layerSetLayerIdList[i] == []
      modifies this`layerSetLayerIdList
      ensures |layerSetLayerIdList| == old(|layerSetLayerIdList|)
      ensures forall k :: 0 <= k < |layerSetLayerIdList| && k != i ==>
                layerSetLayerIdList[k] == old(layerSetLayerIdList[k])
      ensures Enumerates(layerSetLayerIdList[i], set m: nat | m <= maxLayerId && layerIdIncludedFlag[i][m])
    {
      for m := 0 to maxLayerId + 1
        invariant |layerSetLayerIdList| == old(|layerSetLayerIdList|)
        invariant forall k :: 0 <= k < |layerSetLayerIdList| && k != i ==>
                    layerSetLayerIdList[k] == old(layerSetLayerIdList[k])
        invariant Increasing(layerSetLayerIdList[i])
        invariant forall k :: 0 <= k < |layerSetLayerIdList[i]| ==> layerSetLayerIdList[i][k] < m
        invariant forall k: nat :: k in layerSetLayerIdList[i] <==> k < m && layerIdIncludedFlag[i][k]
      {
        if layerIdIncludedFlag[i][m] {
          layerSetLayerIdList := layerSetLayerIdList[i := layerSetLayerIdList[i] + [m]];
        }
      }
    }

    // deriveLayerIdListVariables: the layers of each layer set, in ascending order.
    method DeriveLayerIdListVariables(numLayerSets: nat, maxLayerId: nat)
      requires numLayerSets >= 1 && |layerIdIncludedFlag| >= numLayerSets
      requires forall i :: 0 <= i < numLayerSets ==> |layerIdIncludedFlag[i]| > maxLayerId
      requires layerSetLayerIdList == [] && numLayerInIdList == []
      modifies this`layerSetLayerIdList, this`numLayerInIdList
      ensures |layerSetLayerIdList| == |numLayerInIdList| == numLayerSets && layerSetLayerIdList[0] == [0]
      ensures forall i :: 1 <= i < numLayerSets ==>
                Enumerates(layerSetLayerIdList[i], set m: nat | m <= maxLayerId && layerIdIncludedFlag[i][m])
      ensures forall i :: 0 <= i < numLayerSets ==> numLayerInIdList[i] == |layerSetLayerIdList[i]|
    {
      numLayerInIdList := numLayerInIdList + [1];
      layerSetLayerIdList := seq(numLayerSets, i => []);
      layerSetLayerIdList := layerSetLayerIdList[0 := layerSetLayerIdList[0] + [0]];
      for i := 1 to numLayerSets
        invariant |layerSetLayerIdList| == numLayerSets && |numLayerInIdList| == i && layerSetLayerIdList[0] == [0]
        invariant forall k :: 1 <= k < i ==>
                    Enumerates(layerSetLayerIdList[k], set m: nat | m <= maxLayerId && layerIdIncludedFlag[k][m])
        invariant forall k :: i <= k < numLayerSets ==> layerSetLayerIdList[k] == []
        invariant forall k :: 0 <= k < i ==> numLayerInIdList[k] == |layerSetLayerIdList[k]|
      {
        AddIncludedLayers(i, maxLayerId);
        numLayerInIdList := numLayerInIdList + [|layerSetLayerIdList[i]|];
      }
    }

    // What deriveNecessaryLayerFlag reads for one output layer set.
    ghost predicate ValidOutputSet(olsIdx: nat)
      reads `outputLayerSetIdx, `outputLayerFlag, `layerSetLayerIdList, `numLayerInIdList
    {
      olsIdx < |outputLayerSetIdx| && olsIdx < |outputLayerFlag| &&
      outputLayerSetIdx[olsIdx] < |layerSetLayerIdList| == |numLayerInIdList| &&
      var list := layerSetLayerIdList[outputLayerSetIdx[olsIdx]];
      numLayerInIdList[outputLayerSetIdx[olsIdx]] == |list| == |outputLayerFlag[olsIdx]| &&
      forall l :: 0 <= l < |list| ==> list[l] < maxIds
    }

    ghost function LayerList(olsIdx: nat): seq<nat>
      requires ValidOutputSet(olsIdx)
      reads `outputLayerSetIdx, `outputLayerFlag, `layerSetLayerIdList, `numLayerInIdList
    {
      layerSetLayerIdList[outputLayerSetIdx[olsIdx]]
    }

    // Position r of the list is an output layer, or is needed by a later one that is.
    ghost predicate NecessaryBelow(olsIdx: nat, n: nat, r: nat)
      requires Shape() && ValidOutputSet(olsIdx) && r < |LayerList(olsIdx)| && n <= |LayerList(olsIdx)|
      reads `outputLayerSetIdx, `outputLayerFlag, `layerSetLayerIdList, `numLayerInIdList, recursiveRefLayerFlag
    {
      exists l :: 0 <= l < n && outputLayerFlag[olsIdx][l] &&
                  (l == r || (r < l && recursiveRefLayerFlag[LayerList(olsIdx)[l], LayerList(olsIdx)[r]]))
    }

    // An output layer of the set reaches position r in zero or more steps.
    ghost predicate Necessary(olsIdx: nat, r: nat)
      requires ValidOutputSet(olsIdx) && r < |LayerList(olsIdx)|
      reads `outputLayerSetIdx, `outputLayerFlag, `layerSetLayerIdList, `numLayerInIdList, `refLayerId
    {
      exists l :: 0 <= l < |LayerList(olsIdx)| && outputLayerFlag[olsIdx][l] &&
                  (l == r || Reaches(refLayerId, LayerList(olsIdx)[l], LayerList(olsIdx)[r]))
    }

    method CountTrue(row: seq<bool>) returns (total: nat)
      ensures total == |set r: nat | r < |row| && row[r]|
    {
      total := 0;
      for r := 0 to |row|
        invariant total == |set k: nat | k < r && row[k]|
      {
        ghost var before := set k: nat | k < r && row[k];
        assert (set k: nat | k < r + 1 && row[k]) == if row[r] then before + {r} else before;
        total := total + if row[r] then 1 else 0;
      }
    }

    // The flag row of one output layer set.
    method NecessaryRow(olsIdx: nat) returns (row: seq<bool>)
      requires Shape() && ValidOutputSet(olsIdx)
      ensures |row| == |LayerList(olsIdx)|
      ensures forall r :: 0 <= r < |row| ==> (row[r] <==> NecessaryBelow(olsIdx, |row|, r))
    {
      var lsIdx := outputLayerSetIdx[olsIdx];
      var numLayersInLs := numLayerInIdList[lsIdx];
      var list := layerSetLayerIdList[lsIdx];
      row := seq(numLayersInLs, i => false);
      for l := 0 to numLayersInLs
        invariant |row| == numLayersInLs
        invariant forall r :: 0 <= r < numLayersInLs ==> (row[r] <==> NecessaryBelow(olsIdx, l, r))
      {
        if outputLayerFlag[olsIdx][l] {
          row := row[l := true];
          ghost var start := row;
          for r := 0 to l
            invariant |row| == numLayersInLs
            invariant forall k :: 0 <= k < r ==> (row[k] <==> start[k] || recursiveRefLayerFlag[list[l], list[k]])
            invariant forall k :: r <= k < numLayersInLs ==> row[k] == start[k]
          {
            if recursiveRefLayerFlag[list[l], list[r]] {
              row := row[r := true];
            }
          }
        }
      }
    }

    // On closed flags and an ascending list, necessary means reached from an output layer.
    lemma NecessaryIsReached(olsIdx: nat, r: nat)
      requires Shape() && ValidOutputSet(olsIdx) && r < |LayerList(olsIdx)|
      requires Closed() && Lower(refLayerId) && Increasing(LayerList(olsIdx))
      ensures NecessaryBelow(olsIdx, |LayerList(olsIdx)|, r) <==> Necessary(olsIdx, r)
    {
      var list := LayerList(olsIdx);
      forall l | 0 <= l < |list| && Reaches(refLayerId, list[l], list[r])
        ensures r < l
      {
        ReachesDown(refLayerId, list[l], list[r]);
      }
    }

    // deriveNecessaryLayerFlag for one output layer set; ok is the assertion about the order of calls.
    method DeriveNecessaryLayerFlag(olsIdx: nat) returns (ok: bool)
      requires Shape() && ValidOutputSet(olsIdx) && |necessaryLayerFlag| == |numNecessaryLayers|
      modifies this`necessaryLayerFlag, this`numNecessaryLayers
      ensures ok <==> old(|necessaryLayerFlag|) == olsIdx
      ensures !ok ==> necessaryLayerFlag == old(necessaryLayerFlag) && numNecessaryLayers == old(numNecessaryLayers)
      ensures ok ==>
                |necessaryLayerFlag| == |numNecessaryLayers| == olsIdx + 1 &&
                necessaryLayerFlag[..olsIdx] == old(necessaryLayerFlag) &&
                numNecessaryLayers[..olsIdx] == old(numNecessaryLayers) &&
                |necessaryLayerFlag[olsIdx]| == |LayerList(olsIdx)| &&
                (forall r :: 0 <= r < |LayerList(olsIdx)| ==>
                   (necessaryLayerFlag[olsIdx][r] <==> NecessaryBelow(olsIdx, |LayerList(olsIdx)|, r))) &&
                numNecessaryLayers[olsIdx] == |set r: nat | r < |LayerList(olsIdx)| && necessaryLayerFlag[olsIdx][r]|
      ensures ok && Closed() && Lower(refLayerId) && Increasing(LayerList(olsIdx)) ==>
                forall r :: 0 <= r < |LayerList(olsIdx)| ==>
                  (necessaryLayerFlag[olsIdx][r] <==> Necessary(olsIdx, r))
    {
      ok := |necessaryLayerFlag| == olsIdx;
      if !ok {
        return;
      }
      var row := NecessaryRow(olsIdx);
      necessaryLayerFlag := necessaryLayerFlag + [row];
      var total := CountTrue(row);
      numNecessaryLayers := numNecessaryLayers + [total];
      if Closed() && Lower(refLayerId) && Increasing(LayerList(olsIdx)) {
        forall r | 0 <= r < |row|
          ensures row[r] <==> Necessary(olsIdx, r)
        {
          NecessaryIsReached(olsIdx, r);
        }
      }
    }

    // deriveNecessaryLayerFlag for all output layer sets. What it does first does not clear the lists, so it
    // completes only on a parameter set that has none, or if there is nothing to do.
    method DeriveNecessaryLayerFlags() returns (ok: bool)
      requires Shape() && |necessaryLayerFlag| == |numNecessaryLayers|
      requires forall olsIdx :: 0 <= olsIdx < |outputLayerSetIdx| ==> ValidOutputSet(olsIdx)
      modifies this`necessaryLayerFlag, this`numNecessaryLayers
      ensures ok <==> old(|necessaryLayerFlag|) == 0 || |outputLayerSetIdx| == 0
      ensures !ok ==> necessaryLayerFlag == old(necessaryLayerFlag)
      ensures ok && |outputLayerSetIdx| > 0 ==>
                |necessaryLayerFlag| == |numNecessaryLayers| == |outputLayerSetIdx| &&
                forall i :: 0 <= i < |outputLayerSetIdx| ==>
                  |necessaryLayerFlag[i]| == |LayerList(i)| &&
                  forall r :: 0 <= r < |LayerList(i)| ==>
                    (necessaryLayerFlag[i][r] <==> NecessaryBelow(i, |LayerList(i)|, r))
    {
      ok := true;
      for i := 0 to |outputLayerSetIdx|
        invariant ok && |necessaryLayerFlag| == |numNecessaryLayers|
        invariant |necessaryLayerFlag| == old(|necessaryLayerFlag|) + i
        invariant i > 0 ==> old(|necessaryLayerFlag|) == 0
        invariant i == 0 ==> necessaryLayerFlag == old(necessaryLayerFlag)
        invariant i > 0 ==> forall k :: 0 <= k < i ==>
                    |necessaryLayerFlag[k]| == |LayerList(k)| &&
                    forall r :: 0 <= r < |LayerList(k)| ==>
                      (necessaryLayerFlag[k][r] <==> NecessaryBelow(k, |LayerList(k)|, r))
      {
        ghost var before := necessaryLayerFlag;
        ok := DeriveNecessaryLayerFlag(i);
        if !ok {
          return;
        }
        assert forall k :: 0 <= k < i ==> necessaryLayerFlag[..i][k] == before[k];
      }
    }
  }
}
