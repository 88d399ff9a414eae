/** The merge of streamed routes in the result view, which changes the routes it is given. */
module ResultsView {
  import opened Prelude

  datatype TableKind = PostPolicyAdjIn | PrePolicyAdjIn | LocRib | OtherTable

  datatype ViewState = Seen | Accepted | Active | Selected | Filtered

  /** What never changes of a route: its table and the keys by which it is merged. */
  datatype Info = Info(table: TableKind, preKey: string, allKey: string)

  class Route {
    const info: Info
    var state: ViewState

    constructor (info: Info, state: ViewState)
      ensures this.info == info && this.state == state
    {
      this.info, this.state := info, state;
    }
  }

  // ---- Objects used as dictionaries --------------------------------------------------------

  /** Keys in the order they were first set. */
  datatype Dict<T> = Dict(keys: seq<string>, at: map<string, T>)

  function Empty<T>(): Dict<T> {
    Dict([], map[])
  }

  function Put<T>(d: Dict<T>, key: string, value: T): Dict<T> {
    Dict(if key in d.at then d.keys else d.keys + [key], d.at[key := value])
  }

  ghost predicate Ordered<T>(d: Dict<T>) {
    && (forall k :: k in d.at <==> k in d.keys)
    && forall i, j :: 0 <= i < j < |d.keys| ==> d.keys[i] != d.keys[j]
  }

  // ---- The merge, on values ----------------------------------------------------------------

  /** Routes are named by their positions. */
  ghost function PostPolicies(infos: seq<Info>, n: nat): (d: Dict<nat>)
    requires n <= |infos|
    ensures InRange(d, infos)
  {
    if n == 0 then Empty()
    else
      var d := PostPolicies(infos, n - 1);
      if infos[n - 1].table.PostPolicyAdjIn? then Put(d, infos[n - 1].preKey, n - 1) else d
  }

  ghost function PrePolicies(infos: seq<Info>, n: nat): (d: Dict<nat>)
    requires n <= |infos|
    ensures InRange(d, infos)
  {
    if n == 0 then PostPolicies(infos, |infos|)
    else
      var d := PrePolicies(infos, n - 1);
      if infos[n - 1].table.PrePolicyAdjIn? && infos[n - 1].preKey !in d.at
      then Put(d, infos[n - 1].preKey, n - 1)
      else d
  }

  /** The representatives of the Adj-RIB-In routes. */
  ghost function AdjIn(infos: seq<Info>): (d: Dict<nat>)
    ensures InRange(d, infos)
  {
    PrePolicies(infos, |infos|)
  }

  ghost predicate InRange<T>(d: Dict<nat>, infos: seq<T>) {
    Ordered(d) && forall k :: k in d.at ==> d.at[k] < |infos|
  }

  /** The representatives by the key of the second stage; a later one replaces an earlier one. */
  ghost function AdjInByAllKey(infos: seq<Info>, d: Dict<nat>, n: nat): map<string, nat>
    requires InRange(d, infos) && n <= |d.keys|
  {
    if n == 0 then map[]
    else
      var i := d.at[d.keys[n - 1]];
      AdjInByAllKey(infos, d, n - 1)[infos[i].allKey := i]
  }

  lemma {:induction false} PostPoliciesAre(infos: seq<Info>, n: nat)
    requires n <= |infos|
    ensures forall k :: k in PostPolicies(infos, n).at ==>
              LastPost(infos, n, k, PostPolicies(infos, n).at[k])
    ensures forall j :: 0 <= j < n && infos[j].table.PostPolicyAdjIn? ==> infos[j].preKey in PostPolicies(infos, n).at
  {
    if n > 0 {
      PostPoliciesAre(infos, n - 1);
    }
  }

  /** `i` is the last post-policy route for the key among the first `n`. */
  ghost predicate LastPost(infos: seq<Info>, n: nat, key: string, i: nat)
    requires n <= |infos|
  {
    && i < n && infos[i].table.PostPolicyAdjIn? && infos[i].preKey == key
    && forall j :: i < j < n ==> !(infos[j].table.PostPolicyAdjIn? && infos[j].preKey == key)
  }

  /** `i` is the first pre-policy route for the key. */
  ghost predicate FirstPre(infos: seq<Info>, key: string, i: nat) {
    && i < |infos| && infos[i].table.PrePolicyAdjIn? && infos[i].preKey == key
    && forall j :: 0 <= j < i ==> !(infos[j].table.PrePolicyAdjIn? && infos[j].preKey == key)
  }

  lemma {:induction false} PrePoliciesAre(infos: seq<Info>, n: nat)
    requires n <= |infos|
    ensures forall k :: k in PrePolicies(infos, n).at ==>
              if k in PostPolicies(infos, |infos|).at
              then PrePolicies(infos, n).at[k] == PostPolicies(infos, |infos|).at[k]
              else PrePolicies(infos, n).at[k] < n && FirstPre(infos, k, PrePolicies(infos, n).at[k])
    ensures forall k :: k in PostPolicies(infos, |infos|).at ==> k in PrePolicies(infos, n).at
    ensures forall j :: 0 <= j < n && infos[j].table.PrePolicyAdjIn? ==> infos[j].preKey in PrePolicies(infos, n).at
  {
    if n == 0 {
      PostPoliciesAre(infos, |infos|);
    } else {
      PrePoliciesAre(infos, n - 1);
    }
  }

  /**
   * Stage 1 by itself: the representative of a key is its last post-policy route, or, if there is
   * none, its first pre-policy route.
   */
  lemma AdjInAre(infos: seq<Info>, key: string)
    ensures key in AdjIn(infos).at <==>
            exists j :: 0 <= j < |infos| && infos[j].preKey == key &&
                        (infos[j].table.PostPolicyAdjIn? || infos[j].table.PrePolicyAdjIn?)
    ensures key in AdjIn(infos).at ==>
              var i := AdjIn(infos).at[key];
              LastPost(infos, |infos|, key, i)
              || (FirstPre(infos, key, i) && forall j :: 0 <= j < |infos| && infos[j].preKey == key ==>
                   !infos[j].table.PostPolicyAdjIn?)
  {
    hide PostPolicies;
    PostPoliciesAre(infos, |infos|);
    PrePoliciesAre(infos, |infos|);
    hide PrePolicies;
  }

  /** `i` is the first post-policy route for the key. */
  ghost predicate FirstPost(infos: seq<Info>, key: string, i: nat) {
    && i < |infos| && infos[i].table.PostPolicyAdjIn? && infos[i].preKey == key
    && forall j :: 0 <= j < i ==> !(infos[j].table.PostPolicyAdjIn? && infos[j].preKey == key)
  }

  ghost predicate NoPost(infos: seq<Info>, key: string) {
    forall j :: 0 <= j < |infos| && infos[j].preKey == key ==> !infos[j].table.PostPolicyAdjIn?
  }

  /**
   * The key `a` is met before `b`: keys with a post-policy route come first, by their first such route,
   * and the others by their first pre-policy route.
   */
  ghost predicate MetBefore(infos: seq<Info>, a: string, b: string) {
    || (exists i: nat, j: nat :: FirstPost(infos, a, i) && FirstPost(infos, b, j) && i < j)
    || (!NoPost(infos, a) && NoPost(infos, b))
    || (NoPost(infos, a) && NoPost(infos, b) &&
        exists i: nat, j: nat :: FirstPre(infos, a, i) && FirstPre(infos, b, j) && i < j)
  }

  ghost predicate PostBelow(infos: seq<Info>, key: string, n: nat) {
    exists i: nat :: i < n && FirstPost(infos, key, i)
  }

  lemma {:induction false} PostKeyIsMet(infos: seq<Info>, n: nat, m: nat)
    requires n <= |infos| && m < |PostPolicies(infos, n).keys|
    ensures PostBelow(infos, PostPolicies(infos, n).keys[m], n)
  {
    var d, key := PostPolicies(infos, n - 1), infos[n - 1].preKey;
    PostPoliciesAre(infos, n - 1);
    if m < |d.keys| {
      PostKeyIsMet(infos, n - 1, m);
      var i: nat :| i < n - 1 && FirstPost(infos, d.keys[m], i);
      assert i < n && FirstPost(infos, d.keys[m], i);
    } else {
      assert FirstPost(infos, key, n - 1);
    }
  }

  lemma {:induction false} PostKeysInOrder(infos: seq<Info>, n: nat, l: nat, m: nat)
    requires n <= |infos| && l < m < |PostPolicies(infos, n).keys|
    ensures MetBefore(infos, PostPolicies(infos, n).keys[l], PostPolicies(infos, n).keys[m])
  {
    var d, key := PostPolicies(infos, n - 1), infos[n - 1].preKey;
    if m < |d.keys| {
      PostKeysInOrder(infos, n - 1, l, m);
    } else {
      PostPoliciesAre(infos, n - 1);
      PostKeyIsMet(infos, n - 1, l);
      var i: nat :| i < n - 1 && FirstPost(infos, d.keys[l], i);
      assert FirstPost(infos, key, n - 1) && i < n - 1;
    }
  }

  ghost predicate PreBelow(infos: seq<Info>, key: string, n: nat) {
    NoPost(infos, key) && exists i: nat :: i < n && FirstPre(infos, key, i)
  }

  ghost predicate IsNewPreKey(infos: seq<Info>, n: nat)
    requires 0 < n <= |infos|
  {
    infos[n - 1].table.PrePolicyAdjIn? && infos[n - 1].preKey !in PrePolicies(infos, n - 1).at
  }

  lemma PreKeysGrow(infos: seq<Info>, n: nat)
    requires 0 < n <= |infos|
    ensures PrePolicies(infos, n).keys ==
            PrePolicies(infos, n - 1).keys + if IsNewPreKey(infos, n) then [infos[n - 1].preKey] else []
  {
    hide PostPolicies, InRange;
  }

  lemma NewPreKeyIsMet(infos: seq<Info>, n: nat)
    requires 0 < n <= |infos| && IsNewPreKey(infos, n)
    ensures NoPost(infos, infos[n - 1].preKey) && FirstPre(infos, infos[n - 1].preKey, n - 1)
  {
    hide PostPolicies, InRange;
    PrePoliciesAre(infos, n - 1);
    PostPoliciesAre(infos, |infos|);
  }

  lemma {:induction false} PostKeysComeFirst(infos: seq<Info>, n: nat)
    requires n <= |infos|
    ensures PostPolicies(infos, |infos|).keys <= PrePolicies(infos, n).keys
  {
    hide PostPolicies, InRange;
    if n > 0 {
      PreKeysGrow(infos, n);
      PostKeysComeFirst(infos, n - 1);
    }
  }

  lemma PreBelowMore(infos: seq<Info>, key: string, n: nat)
    requires PreBelow(infos, key, n)
    ensures PreBelow(infos, key, n + 1)
  {
    var i: nat :| i < n && FirstPre(infos, key, i);
    assert i < n + 1 && FirstPre(infos, key, i);
  }

  lemma {:induction false} PreKeyIsMet(infos: seq<Info>, n: nat, m: nat)
    requires n <= |infos| && |PostPolicies(infos, |infos|).keys| <= m < |PrePolicies(infos, n).keys|
    ensures PreBelow(infos, PrePolicies(infos, n).keys[m], n)
  {
    hide PostPolicies, NoPost, FirstPre, InRange;
    if n > 0 {
      PreKeysGrow(infos, n);
      hide PrePolicies, IsNewPreKey;
      if m < |PrePolicies(infos, n - 1).keys| {
        PreKeyIsMet(infos, n - 1, m);
        PreBelowMore(infos, PrePolicies(infos, n - 1).keys[m], n - 1);
      } else {
        NewPreKeyIsMet(infos, n);
      }
    }
  }

  lemma PreBeforeNew(infos: seq<Info>, n: nat, l: nat)
    requires 0 < n <= |infos| && IsNewPreKey(infos, n)
    requires |PostPolicies(infos, |infos|).keys| <= l < |PrePolicies(infos, n - 1).keys|
    ensures MetBefore(infos, PrePolicies(infos, n - 1).keys[l], infos[n - 1].preKey)
  {
    hide PostPolicies, PrePolicies, InRange;
    NewPreKeyIsMet(infos, n);
    PreKeyIsMet(infos, n - 1, l);
    var i: nat :| i < n - 1 && FirstPre(infos, PrePolicies(infos, n - 1).keys[l], i);
  }

  lemma {:induction false} PreKeysInOrder(infos: seq<Info>, n: nat, l: nat, m: nat)
    requires n <= |infos| && |PostPolicies(infos, |infos|).keys| <= l < m < |PrePolicies(infos, n).keys|
    ensures MetBefore(infos, PrePolicies(infos, n).keys[l], PrePolicies(infos, n).keys[m])
  {
    hide PostPolicies, MetBefore, InRange;
    if n > 0 {
      PreKeysGrow(infos, n);
      hide PrePolicies, IsNewPreKey;
      if m < |PrePolicies(infos, n - 1).keys| {
        PreKeysInOrder(infos, n - 1, l, m);
      } else {
        PreBeforeNew(infos, n, l);
      }
    }
  }

  /** The keys of stage 1 are in the order in which they are met. */
  lemma AdjInOrder(infos: seq<Info>, l: nat, m: nat)
    requires l < m < |AdjIn(infos).keys|
    ensures MetBefore(infos, AdjIn(infos).keys[l], AdjIn(infos).keys[m])
  {
    PostKeysComeFirst(infos, |infos|);
    hide PostPolicies, PrePolicies, MetBefore;
    var posts, keys := PostPolicies(infos, |infos|).keys, AdjIn(infos).keys;
    if m < |posts| {
      PostKeysInOrder(infos, |infos|, l, m);
      assert posts[l] == keys[l] && posts[m] == keys[m];
    } else if l < |posts| {
      PostKeyIsMet(infos, |infos|, l);
      assert posts[l] == keys[l];
      PreKeyIsMet(infos, |infos|, m);
      PostsBeforeOthers(infos, keys[l], keys[m]);
    } else {
      PreKeysInOrder(infos, |infos|, l, m);
    }
  }

  lemma PostsBeforeOthers(infos: seq<Info>, a: string, b: string)
    requires PostBelow(infos, a, |infos|) && NoPost(infos, b)
    ensures MetBefore(infos, a, b)
  {
    var i: nat :| i < |infos| && FirstPost(infos, a, i);
    assert !NoPost(infos, a);
  }

  lemma MetOnce(infos: seq<Info>, a: string, b: string)
    requires MetBefore(infos, a, b)
    ensures !MetBefore(infos, b, a)
  {
  }

  /** The routes that stand for the Adj-RIB-In routes in the second stage. */
  ghost function AdjReps(infos: seq<Info>): map<string, nat> {
    AdjInByAllKey(infos, AdjIn(infos), |AdjIn(infos).keys|)
  }

  lemma {:induction false} ByAllKeyIsLast(infos: seq<Info>, d: Dict<nat>, n: nat, key: string) returns (m: nat)
    requires InRange(d, infos) && n <= |d.keys| && key in AdjInByAllKey(infos, d, n)
    ensures LastNamed(infos, d, n, key, m) && AdjInByAllKey(infos, d, n)[key] == d.at[d.keys[m]]
  {
    if infos[d.at[d.keys[n - 1]]].allKey == key {
      m := n - 1;
    } else {
      m := ByAllKeyIsLast(infos, d, n - 1, key);
    }
  }

  lemma {:induction false} ByAllKeyHas(infos: seq<Info>, d: Dict<nat>, n: nat, m: nat)
    requires InRange(d, infos) && m < n <= |d.keys|
    ensures infos[d.at[d.keys[m]]].allKey in AdjInByAllKey(infos, d, n)
  {
    if m < n - 1 {
      ByAllKeyHas(infos, d, n - 1, m);
    }
  }

  /** The last of the first `n` entries whose route has the key of the second stage. */
  ghost predicate LastNamed(infos: seq<Info>, d: Dict<nat>, n: nat, key: string, m: int)
    requires InRange(d, infos) && n <= |d.keys|
  {
    && 0 <= m < n && infos[d.at[d.keys[m]]].allKey == key
    && forall l :: m < l < n ==> infos[d.at[d.keys[l]]].allKey != key
  }

  /** The route at `i` stands for its key of stage 1. */
  ghost predicate IsRep(infos: seq<Info>, i: nat) {
    && i < |infos|
    && (LastPost(infos, |infos|, infos[i].preKey, i)
        || (FirstPre(infos, infos[i].preKey, i) && NoPost(infos, infos[i].preKey)))
  }

  ghost predicate IsRepFor(infos: seq<Info>, i: nat, key: string) {
    i < |infos| && IsRep(infos, i) && infos[i].allKey == key
  }

  lemma IsRepIsInAdjIn(infos: seq<Info>, i: nat)
    requires i < |infos|
    ensures IsRep(infos, i) <==> infos[i].preKey in AdjIn(infos).at && AdjIn(infos).at[infos[i].preKey] == i
  {
    hide AdjIn;
    AdjInAre(infos, infos[i].preKey);
  }

  /**
   * Of the representatives with one key of the second stage, the one whose key of stage 1 is met last
   * stands for all of them.
   */
  lemma AdjRepsAre(infos: seq<Info>, key: string)
    ensures key in AdjReps(infos) <==> exists i: nat :: IsRepFor(infos, i, key)
    ensures key in AdjReps(infos) ==>
              var i := AdjReps(infos)[key];
              && IsRepFor(infos, i, key)
              && forall j: nat :: IsRepFor(infos, j, key) && j != i ==>
                   MetBefore(infos, infos[j].preKey, infos[i].preKey)
  {
    hide AdjIn, AdjInByAllKey, IsRep, MetBefore;
    var d := AdjIn(infos);
    if key in AdjReps(infos) {
      var m := ByAllKeyIsLast(infos, d, |d.keys|, key);
      var i := d.at[d.keys[m]];
      AdjInAre(infos, d.keys[m]);
      assert infos[i].preKey == d.keys[m];
      IsRepIsInAdjIn(infos, i);
      assert IsRepFor(infos, i, key);
      forall j: nat | IsRepFor(infos, j, key) && j != i
        ensures MetBefore(infos, infos[j].preKey, infos[i].preKey)
      {
        RepIsNamed(infos, j);
        var l :| 0 <= l < |d.keys| && d.keys[l] == infos[j].preKey;
        AdjInOrder(infos, l, m);
      }
    }
    forall j: nat | IsRepFor(infos, j, key)
      ensures key in AdjReps(infos)
    {
      RepIsNamed(infos, j);
      var l :| 0 <= l < |d.keys| && d.keys[l] == infos[j].preKey;
      ByAllKeyHas(infos, d, |d.keys|, l);
    }
  }

  lemma RepIsNamed(infos: seq<Info>, j: nat)
    requires IsRep(infos, j)
    ensures var d := AdjIn(infos);
            && infos[j].preKey in d.keys && d.at[infos[j].preKey] == j
  {
    hide AdjIn;
    assert j < |infos|;
    IsRepIsInAdjIn(infos, j);
  }

  lemma RepOf(infos: seq<Info>, key: string)
    requires key in AdjReps(infos)
    ensures var i := AdjReps(infos)[key];
            && i < |infos| && infos[i].allKey == key
            && (infos[i].table.PostPolicyAdjIn? || infos[i].table.PrePolicyAdjIn?)
            && infos[i].preKey in AdjIn(infos).at && AdjIn(infos).at[infos[i].preKey] == i
  {
    hide AdjIn, AdjReps, MetBefore;
    AdjRepsAre(infos, key);
    IsRepIsInAdjIn(infos, AdjReps(infos)[key]);
  }

  /** There is a LocRib route with the key and the state. */
  ghost predicate Has(infos: seq<Info>, states: seq<ViewState>, key: string, state: ViewState)
    requires |infos| == |states|
  {
    exists j :: 0 <= j < |infos| && infos[j].table.LocRib? && infos[j].allKey == key && states[j] == state
  }

  /** The highest of the three LocRib states that is there for a key. */
  ghost function Rank(infos: seq<Info>, states: seq<ViewState>, key: string): Option<ViewState>
    requires |infos| == |states|
  {
    if Has(infos, states, key, Selected) then Some(Selected)
    else if Has(infos, states, key, Active) then Some(Active)
    else if Has(infos, states, key, Accepted) then Some(Accepted)
    else None
  }

  /** The merged state for a key: the highest LocRib state, or else that of the Adj-RIB-In routes. */
  ghost function MergedAt(infos: seq<Info>, states: seq<ViewState>, key: string): Option<ViewState>
    requires |infos| == |states|
  {
    if Rank(infos, states, key).Some? then Rank(infos, states, key)
    else if key in AdjReps(infos) && AdjReps(infos)[key] < |infos| then
      var i := AdjReps(infos)[key];
      Some(if infos[i].table.PrePolicyAdjIn? then Filtered else states[i])
    else None
  }

  // ---- Changed states that merge alike -----------------------------------------------------

  /** What a run of the merge may do to the states it was given. */
  ghost predicate Stable(infos: seq<Info>, s: seq<ViewState>, s': seq<ViewState>) {
    && |infos| == |s| == |s'|
    && (forall key :: Rank(infos, s', key) == Rank(infos, s, key))
    && (forall i :: 0 <= i < |infos| && infos[i].table.PostPolicyAdjIn? && Rank(infos, s, infos[i].allKey).None? ==>
         s'[i] == s[i])
  }

  lemma StableMergesAlike(infos: seq<Info>, s: seq<ViewState>, s': seq<ViewState>, key: string)
    requires Stable(infos, s, s')
    ensures MergedAt(infos, s', key) == MergedAt(infos, s, key)
  {
    hide AdjReps, Rank;
    if key in AdjReps(infos) {
      RepOf(infos, key);
    }
  }

  lemma StableChain(infos: seq<Info>, a: seq<ViewState>, b: seq<ViewState>, c: seq<ViewState>)
    requires Stable(infos, a, b) && Stable(infos, b, c)
    ensures Stable(infos, a, c)
  {
    hide Rank;
  }

  lemma HasMore(infos: seq<Info>, s: seq<ViewState>, info: Info, v: ViewState, key: string, state: ViewState)
    requires |infos| == |s|
    ensures Has(infos + [info], s + [v], key, state) <==>
            Has(infos, s, key, state) || (info.table.LocRib? && info.allKey == key && v == state)
  {
    if Has(infos, s, key, state) {
      var j :| 0 <= j < |infos| && infos[j].table.LocRib? && infos[j].allKey == key && s[j] == state;
      assert (infos + [info])[j] == infos[j] && (s + [v])[j] == s[j];
    }
    if info.table.LocRib? && info.allKey == key && v == state {
      assert (infos + [info])[|infos|] == info && (s + [v])[|infos|] == v;
    }
  }

  /** A new route does not tell the changed states from the given ones. */
  lemma StableMore(infos: seq<Info>, s: seq<ViewState>, s': seq<ViewState>, info: Info, v: ViewState)
    requires Stable(infos, s, s')
    ensures Stable(infos + [info], s + [v], s' + [v])
  {
    hide Has;
    forall key
      ensures Rank(infos + [info], s' + [v], key) == Rank(infos + [info], s + [v], key)
      ensures Rank(infos + [info], s + [v], key).None? ==> Rank(infos, s, key).None?
    {
      HasMore(infos, s, info, v, key, Selected);
      HasMore(infos, s, info, v, key, Active);
      HasMore(infos, s, info, v, key, Accepted);
      HasMore(infos, s', info, v, key, Selected);
      HasMore(infos, s', info, v, key, Active);
      HasMore(infos, s', info, v, key, Accepted);
      assert Rank(infos, s', key) == Rank(infos, s, key);
    }
    hide Rank;
  }

  // ---- The merge, in place -----------------------------------------------------------------

  ghost function Infos(routes: seq<Route>): seq<Info> {
    seq(|routes|, i requires 0 <= i < |routes| => routes[i].info)
  }

  ghost function States(routes: seq<Route>): seq<ViewState>
    reads routes
  {
    seq(|routes|, i requires 0 <= i < |routes| reads routes => routes[i].state)
  }

  ghost predicate Distinct(routes: seq<Route>) {
    forall i, j :: 0 <= i < j < |routes| ==> routes[i] != routes[j]
  }

  /** `d` holds the routes that `e` names. */
  ghost predicate Names(d: Dict<Route>, e: Dict<nat>, routes: seq<Route>) {
    && d.keys == e.keys
    && (forall k :: k in d.at <==> k in e.at)
    && forall k :: k in e.at ==> e.at[k] < |routes| && d.at[k] == routes[e.at[k]]
  }

  /** The pre-policy route at `x` stands for its key. */
  ghost predicate IsRejected(infos: seq<Info>, n: nat, x: nat)
    requires n <= |infos| && x < |infos|
  {
    && infos[x].table.PrePolicyAdjIn?
    && infos[x].preKey in PrePolicies(infos, n).at && PrePolicies(infos, n).at[infos[x].preKey] == x
  }

  lemma NamesPut(d: Dict<Route>, e: Dict<nat>, routes: seq<Route>, key: string, i: nat)
    requires Names(d, e, routes) && i < |routes|
    ensures Names(Put(d, key, routes[i]), Put(e, key, i), routes)
  {
  }

  method CollectPostPolicies(routes: seq<Route>) returns (pre: Dict<Route>)
    ensures Names(pre, PostPolicies(Infos(routes), |routes|), routes)
  {
    hide Names, Put;
    ghost var infos := Infos(routes);
    pre := Empty();
    assert Names(pre, PostPolicies(infos, 0), routes) by { NamesNothing(routes); }
    for i := 0 to |routes|
      invariant Names(pre, PostPolicies(infos, i), routes)
    {
      if routes[i].info.table.PostPolicyAdjIn? {
        NamesPut(pre, PostPolicies(infos, i), routes, routes[i].info.preKey, i);
        pre := Put(pre, routes[i].info.preKey, routes[i]);
      }
    }
  }

  lemma NamesNothing(routes: seq<Route>)
    ensures Names(Empty(), PostPolicies(Infos(routes), 0), routes)
  {
  }

  /** One more route in the second loop of stage 1. */
  lemma RejectedStep(infos: seq<Info>, i: nat, x: nat)
    requires i < |infos| && x < |infos|
    ensures var rejected := infos[i].table.PrePolicyAdjIn? && infos[i].preKey !in PrePolicies(infos, i).at;
            && PrePolicies(infos, i + 1) == (if rejected then Put(PrePolicies(infos, i), infos[i].preKey,
                 i) else PrePolicies(infos, i))
            && (IsRejected(infos, i + 1, x) <==> IsRejected(infos, i, x) || (rejected && x == i))
  {
    hide PostPolicies;
    PrePoliciesAre(infos, i);
  }

  lemma NoneRejected(infos: seq<Info>, x: nat)
    requires x < |infos|
    ensures !IsRejected(infos, 0, x)
  {
    PostPoliciesAre(infos, |infos|);
    hide PostPolicies;
  }

  /** Stage 1: post-policy routes, then those that are only pre-policy, which were rejected. */
  method CombineAdjIn(routes: seq<Route>) returns (pre: Dict<Route>)
    requires Distinct(routes)
    modifies routes
    ensures Names(pre, AdjIn(Infos(routes)), routes)
    ensures forall x :: 0 <= x < |routes| ==>
              routes[x].state == if IsRejected(Infos(routes), |routes|, x) then Filtered else old(routes[x].state)
  {
    hide PrePolicies, PostPolicies, IsRejected;
    ghost var infos := Infos(routes);
    pre := CollectPostPolicies(routes);
    assert Names(pre, PrePolicies(infos, 0), routes) by { StartsWithPost(infos); }
    forall x | 0 <= x < |routes|
      ensures !IsRejected(infos, 0, x)
    {
      NoneRejected(infos, x);
    }
    for i := 0 to |routes|
      invariant Names(pre, PrePolicies(infos, i), routes)
      invariant forall x :: 0 <= x < |routes| ==>
                  routes[x].state == if IsRejected(infos, i, x) then Filtered else old(routes[x].state)
    {
      forall x | 0 <= x < |routes|
        ensures IsRejected(infos, i + 1, x) <==>
                IsRejected(infos, i, x)
                || (infos[i].table.PrePolicyAdjIn? && infos[i].preKey !in PrePolicies(infos, i).at && x == i)
      {
        RejectedStep(infos, i, x);
      }
      RejectedStep(infos, i, i);
      if routes[i].info.table.PrePolicyAdjIn? {
        var key := routes[i].info.preKey;
        if key !in pre.at {
          NamesPut(pre, PrePolicies(infos, i), routes, key, i);
          pre := Put(pre, key, routes[i]);
          pre.at[key].state := Filtered;
        }
      }
    }
  }

  lemma StartsWithPost(infos: seq<Info>)
    ensures PrePolicies(infos, 0) == PostPolicies(infos, |infos|)
  {
  }

  /** The values of a dictionary by another key; a later one replaces an earlier one. */
  method ByAllKey(routes: seq<Route>, pre: Dict<Route>) returns (all: map<string, Route>)
    requires Names(pre, AdjIn(Infos(routes)), routes)
    ensures forall k :: k in all <==> k in AdjReps(Infos(routes))
    ensures forall k :: k in all ==> AdjReps(Infos(routes))[k] < |routes| && all[k] == routes[AdjReps(Infos(routes))[k]]
  {
    hide AdjIn;
    ghost var infos := Infos(routes);
    ghost var d := AdjIn(infos);
    all := map[];
    for n := 0 to |pre.keys|
      invariant forall k :: k in all <==> k in AdjInByAllKey(infos, d, n)
      invariant forall k :: k in all ==>
                  AdjInByAllKey(infos, d, n)[k] < |routes| && all[k] == routes[AdjInByAllKey(infos, d, n)[k]]
    {
      var route := pre.at[pre.keys[n]];
      all := all[route.info.allKey := route];
    }
  }

  /** Each entry is one of the routes and has the key it is found under. */
  ghost predicate Held(all: map<string, Route>, routes: seq<Route>) {
    forall k :: k in all ==> all[k] in routes && all[k].info.allKey == k
  }

  /** The route at `x` is the entry for its key. */
  ghost predicate IsEntry(all: map<string, Route>, routes: seq<Route>, x: nat)
    requires x < |routes|
  {
    var key := routes[x].info.allKey;
    key in all && all[key] == routes[x]
  }

  ghost predicate HasUpTo(infos: seq<Info>, s: seq<ViewState>, n: nat, key: string, state: ViewState)
    requires n <= |infos| == |s|
  {
    exists j :: 0 <= j < n && infos[j].table.LocRib? && infos[j].allKey == key && s[j] == state
  }

  lemma HasUpToMore(infos: seq<Info>, s: seq<ViewState>, n: nat, key: string, state: ViewState)
    requires n < |infos| == |s|
    ensures HasUpTo(infos, s, n + 1, key, state) <==>
            HasUpTo(infos, s, n, key, state) || (infos[n].table.LocRib? && infos[n].allKey == key && s[n] == state)
  {
  }

  lemma HasUpToAll(infos: seq<Info>, s: seq<ViewState>, key: string, state: ViewState)
    requires |infos| == |s|
    ensures !HasUpTo(infos, s, 0, key, state)
    ensures HasUpTo(infos, s, |infos|, key, state) <==> Has(infos, s, key, state)
  {
  }

  ghost predicate RaisedUpTo(all: map<string, Route>, routes: seq<Route>, s: seq<ViewState>, n: nat, state: ViewState,
                             x: nat)
    requires x < |routes| == |s| && n <= |routes|
  {
    IsEntry(all, routes, x) && HasUpTo(Infos(routes), s, n, routes[x].info.allKey, state)
  }

  /** After the first `n` routes: the entries, and the states `cur` that were `s` before. */
  ghost predicate Overlaid(all: map<string, Route>, cur: seq<ViewState>, before: map<string, Route>, routes: seq<Route>,
                           s: seq<ViewState>, n: nat, state: ViewState)
    requires n <= |routes| == |s| == |cur|
  {
    && Held(all, routes)
    && (forall k :: k in all <==> k in before || HasUpTo(Infos(routes), s, n, k, state))
    && (forall k :: k in before ==> all[k] == before[k])
    && (forall x :: 0 <= x < |routes| && IsEntry(all, routes, x) && routes[x].info.allKey !in before ==>
          routes[x].info.table.LocRib? && s[x] == state)
    && (forall x :: 0 <= x < |routes| ==> cur[x] == if RaisedUpTo(before, routes, s, n, state, x) then state else s[x])
  }

  lemma OverlaidAtStart(before: map<string, Route>, routes: seq<Route>, s: seq<ViewState>, state: ViewState)
    requires |s| == |routes| && Held(before, routes)
    ensures Overlaid(before, s, before, routes, s, 0, state)
  {
  }

  /** What one more route adds. */
  lemma UpToMore(before: map<string, Route>, routes: seq<Route>, s: seq<ViewState>, n: nat, state: ViewState,
                 k: string, x: nat)
    requires n < |routes| == |s| && x < |routes|
    ensures var adds := routes[n].info.table.LocRib? && s[n] == state;
            && (HasUpTo(Infos(routes), s, n + 1, k, state) <==>
                HasUpTo(Infos(routes), s, n, k, state) || (adds && routes[n].info.allKey == k))
            && (RaisedUpTo(before, routes, s, n + 1, state, x) <==>
                RaisedUpTo(before, routes, s, n, state, x)
                || (adds && IsEntry(before, routes, x) && routes[x].info.allKey == routes[n].info.allKey))
  {
    HasUpToMore(Infos(routes), s, n, k, state);
    HasUpToMore(Infos(routes), s, n, routes[x].info.allKey, state);
  }

  lemma AllUpToMore(before: map<string, Route>, routes: seq<Route>, s: seq<ViewState>, n: nat, state: ViewState)
    requires n < |routes| == |s|
    ensures var adds := routes[n].info.table.LocRib? && s[n] == state;
            && (forall k :: HasUpTo(Infos(routes), s, n + 1, k, state) <==>
                  HasUpTo(Infos(routes), s, n, k, state) || (adds && routes[n].info.allKey == k))
            && (forall x :: 0 <= x < |routes| ==>
                  (RaisedUpTo(before, routes, s, n + 1, state, x) <==>
                   RaisedUpTo(before, routes, s, n, state, x)
                   || (adds && IsEntry(before, routes, x) && routes[x].info.allKey == routes[n].info.allKey)))
  {
    hide HasUpTo, RaisedUpTo, IsEntry;
    forall k
      ensures var adds := routes[n].info.table.LocRib? && s[n] == state;
              HasUpTo(Infos(routes), s, n + 1, k, state) <==>
              HasUpTo(Infos(routes), s, n, k, state) || (adds && routes[n].info.allKey == k)
    {
      UpToMore(before, routes, s, n, state, k, 0);
    }
    forall x | 0 <= x < |routes|
      ensures var adds := routes[n].info.table.LocRib? && s[n] == state;
              RaisedUpTo(before, routes, s, n + 1, state, x) <==>
              RaisedUpTo(before, routes, s, n, state, x)
              || (adds && IsEntry(before, routes, x) && routes[x].info.allKey == routes[n].info.allKey)
    {
      UpToMore(before, routes, s, n, state, "", x);
    }
  }

  /** A route that the loop does not act on. */
  lemma OverlaidSkip(all: map<string, Route>, cur: seq<ViewState>, before: map<string, Route>, routes: seq<Route>,
                    s: seq<ViewState>, n: nat, state: ViewState)
    requires n < |routes| == |s| == |cur| && Overlaid(all, cur, before, routes, s, n, state)
    requires !(routes[n].info.table.LocRib? && cur[n] == state)
    ensures Overlaid(all, cur, before, routes, s, n + 1, state)
  {
    AllUpToMore(before, routes, s, n, state);
    hide HasUpTo, RaisedUpTo;
    assert cur[n] == if RaisedUpTo(before, routes, s, n, state, n) then state else s[n];
  }

  /** A route whose key is new. */
  lemma OverlaidAdd(all: map<string, Route>, cur: seq<ViewState>, before: map<string, Route>, routes: seq<Route>,
                    s: seq<ViewState>, n: nat, state: ViewState)
    requires n < |routes| == |s| == |cur| && Overlaid(all, cur, before, routes, s, n, state)
    requires Distinct(routes) && routes[n].info.table.LocRib? && cur[n] == state && routes[n].info.allKey !in all
    ensures Overlaid(all[routes[n].info.allKey := routes[n]], cur, before, routes, s, n + 1, state)
  {
    AllUpToMore(before, routes, s, n, state);
    assert cur[n] == if RaisedUpTo(before, routes, s, n, state, n) then state else s[n];
    assert !RaisedUpTo(before, routes, s, n, state, n);
    hide HasUpTo, RaisedUpTo;
  }

  /** A route whose key has an entry, which takes the state. */
  lemma OverlaidRaise(all: map<string, Route>, cur: seq<ViewState>, before: map<string, Route>, routes: seq<Route>,
                    s: seq<ViewState>, n: nat, state: ViewState, y: nat)
    requires n < |routes| == |s| == |cur| && Overlaid(all, cur, before, routes, s, n, state)
    requires Distinct(routes) && routes[n].info.table.LocRib? && cur[n] == state && routes[n].info.allKey in all
    requires y < |routes| && all[routes[n].info.allKey] == routes[y]
    ensures Overlaid(all, cur[y := state], before, routes, s, n + 1, state)
  {
    AllUpToMore(before, routes, s, n, state);
    assert cur[n] == if RaisedUpTo(before, routes, s, n, state, n) then state else s[n];
    assert RaisedUpTo(before, routes, s, n, state, n) ==> HasUpTo(Infos(routes), s, n, routes[n].info.allKey, state);
    assert RaisedUpTo(before, routes, s, n, state, y) <==>
      IsEntry(before, routes, y) && HasUpTo(Infos(routes), s, n, routes[y].info.allKey, state);
    hide HasUpTo, RaisedUpTo;
  }

  /** One loop of stage 2: LocRib routes in one state are added or give their state to the entry that is there. */
  method Overlay(routes: seq<Route>, before: map<string, Route>, state: ViewState) returns (all: map<string, Route>)
    requires Distinct(routes) && Held(before, routes)
    modifies routes
    ensures Overlaid(all, States(routes), before, routes, old(States(routes)), |routes|, state)
  {
    hide Overlaid, HasUpTo;
    ghost var s := States(routes);
    all := before;
    OverlaidAtStart(before, routes, s, state);
    for i := 0 to |routes|
      invariant Overlaid(all, States(routes), before, routes, s, i, state)
    {
      var route := routes[i];
      var key := route.info.allKey;
      ghost var cur := States(routes);
      OverlaidHeld(all, cur, before, routes, s, i, state);
      if route.info.table.LocRib? && route.state == state {
        if key in all {
          ghost var y :| 0 <= y < |routes| && routes[y] == all[key];
          OverlaidRaise(all, cur, before, routes, s, i, state, y);
          all[key].state := state;
          assert States(routes) == cur[y := state];
        } else {
          OverlaidAdd(all, cur, before, routes, s, i, state);
          all := all[key := route];
        }
      } else {
        OverlaidSkip(all, cur, before, routes, s, i, state);
      }
    }
  }

  lemma OverlaidHeld(all: map<string, Route>, cur: seq<ViewState>, before: map<string, Route>, routes: seq<Route>,
                     s: seq<ViewState>, n: nat, state: ViewState)
    requires n <= |routes| == |s| == |cur| && Overlaid(all, cur, before, routes, s, n, state)
    ensures Held(all, routes)
  {
  }

  // ---- What one overlay does to ranks and entries ------------------------------------------

  /** No entry is a LocRib route in the state. */
  ghost predicate NoLocRibEntry(all: map<string, Route>, routes: seq<Route>, s: seq<ViewState>, state: ViewState)
    requires |routes| == |s|
  {
    forall x :: 0 <= x < |routes| && IsEntry(all, routes, x) && routes[x].info.table.LocRib? ==> s[x] != state
  }

  lemma OverlayHas(all: map<string, Route>, cur: seq<ViewState>, before: map<string, Route>, routes: seq<Route>,
                   s: seq<ViewState>, state: ViewState, key: string, other: ViewState)
    requires |routes| == |s| == |cur| && Overlaid(all, cur, before, routes, s, |routes|, state)
    ensures Has(Infos(routes), cur, key, state) == Has(Infos(routes), s, key, state)
    ensures !Has(Infos(routes), s, key, state) ==>
              Has(Infos(routes), cur, key, other) == Has(Infos(routes), s, key, other)
    ensures other != state && NoLocRibEntry(before, routes, s, other) ==>
              Has(Infos(routes), cur, key, other) == Has(Infos(routes), s, key, other)
  {
    var infos := Infos(routes);
    forall x | 0 <= x < |routes|
      ensures RaisedUpTo(before, routes, s, |routes|, state, x) <==>
              IsEntry(before, routes, x) && Has(infos, s, infos[x].allKey, state)
    {
      HasUpToAll(infos, s, infos[x].allKey, state);
    }
    hide RaisedUpTo, IsEntry, HasUpTo, Held;
  }

  lemma OverlayKeys(all: map<string, Route>, cur: seq<ViewState>, before: map<string, Route>, routes: seq<Route>,
                    s: seq<ViewState>, state: ViewState, key: string)
    requires |routes| == |s| == |cur| && Overlaid(all, cur, before, routes, s, |routes|, state)
    ensures Held(all, routes)
    ensures key in all <==> key in before || Has(Infos(routes), s, key, state)
  {
    HasUpToAll(Infos(routes), s, key, state);
    hide RaisedUpTo, IsEntry, HasUpTo;
  }

  lemma OverlayEntry(all: map<string, Route>, cur: seq<ViewState>, before: map<string, Route>, routes: seq<Route>,
                     s: seq<ViewState>, state: ViewState, x: nat)
    requires |routes| == |s| == |cur| && Overlaid(all, cur, before, routes, s, |routes|, state) && x < |routes|
    ensures !Has(Infos(routes), s, routes[x].info.allKey, state) ==> cur[x] == s[x]
    ensures IsEntry(all, routes, x) && !Has(Infos(routes), s, routes[x].info.allKey, state) ==>
              IsEntry(before, routes, x)
    ensures IsEntry(all, routes, x) && Has(Infos(routes), s, routes[x].info.allKey, state) ==> cur[x] == state
  {
    var key := routes[x].info.allKey;
    HasUpToAll(Infos(routes), s, key, state);
    assert cur[x] == if RaisedUpTo(before, routes, s, |routes|, state, x) then state else s[x];
    hide HasUpTo, Has;
  }

  /** Stage 1 has marked the rejected routes. */
  ghost predicate Marked(infos: seq<Info>, s: seq<ViewState>, marked: seq<ViewState>) {
    && |infos| == |s| == |marked|
    && forall x :: 0 <= x < |infos| ==> marked[x] == if IsRejected(infos, |infos|, x) then Filtered else s[x]
  }

  lemma MarkedHas(infos: seq<Info>, s: seq<ViewState>, marked: seq<ViewState>, key: string, state: ViewState)
    requires Marked(infos, s, marked)
    ensures Has(infos, marked, key, state) == Has(infos, s, key, state)
  {
    hide PrePolicies;
    forall x | 0 <= x < |infos| && infos[x].table.LocRib?
      ensures marked[x] == s[x]
    {
      assert !IsRejected(infos, |infos|, x);
    }
    hide IsRejected;
  }

  /** The dictionary of the second stage before the LocRib routes are laid over it. */
  ghost predicate StartsFrom(all: map<string, Route>, routes: seq<Route>) {
    && (forall k :: k in all <==> k in AdjReps(Infos(routes)))
    && forall k :: k in all ==> AdjReps(Infos(routes))[k] < |routes| && all[k] == routes[AdjReps(Infos(routes))[k]]
  }

  lemma StartHeld(all: map<string, Route>, routes: seq<Route>)
    requires StartsFrom(all, routes)
    ensures Held(all, routes)
    ensures forall x :: 0 <= x < |routes| && IsEntry(all, routes, x) ==> !routes[x].info.table.LocRib?
  {
    hide AdjReps;
    forall k | k in all
      ensures all[k] in routes && all[k].info.allKey == k && !all[k].info.table.LocRib?
    {
      RepOf(Infos(routes), k);
    }
  }

  /** All states of one run: as given, after stage 1, and after each overlay. */
  datatype Trace = Trace(
    all0: map<string, Route>, all1: map<string, Route>, all2: map<string, Route>, all3: map<string, Route>,
    s0: seq<ViewState>, s1: seq<ViewState>, s2: seq<ViewState>, s3: seq<ViewState>, s4: seq<ViewState>)

  ghost predicate IsRun(t: Trace, routes: seq<Route>) {
    && |routes| == |t.s0| == |t.s1| == |t.s2| == |t.s3| == |t.s4|
    && Distinct(routes)
    && StartsFrom(t.all0, routes)
    && Marked(Infos(routes), t.s0, t.s1)
    && Overlaid(t.all1, t.s2, t.all0, routes, t.s1, |routes|, Accepted)
    && Overlaid(t.all2, t.s3, t.all1, routes, t.s2, |routes|, Active)
    && Overlaid(t.all3, t.s4, t.all2, routes, t.s3, |routes|, Selected)
  }

  /** Which LocRib states there are for a key, from one stage to the next. */
  lemma RunHas(t: Trace, routes: seq<Route>, key: string)
    requires IsRun(t, routes)
    ensures var infos := Infos(routes);
            && (forall st :: st == Accepted || st == Active || st == Selected ==>
                  Has(infos, t.s1, key, st) == Has(infos, t.s0, key, st) &&
                      Has(infos, t.s2, key, st) == Has(infos, t.s0, key, st))
            && Has(infos, t.s3, key, Selected) == Has(infos, t.s0, key, Selected)
            && Has(infos, t.s3, key, Active) == Has(infos, t.s0, key, Active)
            && (!Has(infos, t.s0, key, Active) ==> Has(infos, t.s3, key, Accepted) == Has(infos, t.s0, key, Accepted))
            && Has(infos, t.s4, key, Selected) == Has(infos, t.s0, key, Selected)
            && (!Has(infos, t.s0, key, Selected) ==>
                  && Has(infos, t.s4, key, Active) == Has(infos, t.s3, key, Active)
                  && Has(infos, t.s4, key, Accepted) == Has(infos, t.s3, key, Accepted))
  {
    hide Has, Overlaid, IsEntry, Marked;
    StartHeld(t.all0, routes);
    forall st
      ensures Has(Infos(routes), t.s1, key, st) == Has(Infos(routes), t.s0, key, st)
    {
      MarkedHas(Infos(routes), t.s0, t.s1, key, st);
    }
    OverlayHas(t.all1, t.s2, t.all0, routes, t.s1, Accepted, key, Active);
    OverlayHas(t.all1, t.s2, t.all0, routes, t.s1, Accepted, key, Selected);
    LocRibEntries(t, routes);
    OverlayHas(t.all2, t.s3, t.all1, routes, t.s2, Active, key, Selected);
    OverlayHas(t.all2, t.s3, t.all1, routes, t.s2, Active, key, Accepted);
    OverlayHas(t.all3, t.s4, t.all2, routes, t.s3, Selected, key, Active);
    OverlayHas(t.all3, t.s4, t.all2, routes, t.s3, Selected, key, Accepted);
  }

  /** LocRib routes that are entries after the first overlay were accepted. */
  lemma LocRibEntries(t: Trace, routes: seq<Route>)
    requires IsRun(t, routes)
    ensures forall x :: 0 <= x < |routes| && IsEntry(t.all1, routes, x) && routes[x].info.table.LocRib? ==>
              t.s2[x] == Accepted
  {
    hide Has, Overlaid, IsEntry, Marked;
    StartHeld(t.all0, routes);
    forall x | 0 <= x < |routes| && IsEntry(t.all1, routes, x) && routes[x].info.table.LocRib?
      ensures t.s2[x] == Accepted
    {
      OverlayEntry(t.all1, t.s2, t.all0, routes, t.s1, Accepted, x);
    }
  }

  lemma RunRank(t: Trace, routes: seq<Route>, key: string)
    requires IsRun(t, routes)
    ensures Rank(Infos(routes), t.s4, key) == Rank(Infos(routes), t.s0, key)
  {
    hide Has, IsRun;
    RunHas(t, routes, key);
  }

  /** A run leaves the states so that they merge as before. */
  lemma RunIsStable(t: Trace, routes: seq<Route>)
    requires IsRun(t, routes)
    ensures Stable(Infos(routes), t.s0, t.s4)
  {
    var infos := Infos(routes);
    hide Has, Overlaid, Marked, PrePolicies;
    forall key
      ensures Rank(infos, t.s4, key) == Rank(infos, t.s0, key)
    {
      RunRank(t, routes, key);
    }
    forall i | 0 <= i < |infos| && infos[i].table.PostPolicyAdjIn? && Rank(infos, t.s0, infos[i].allKey).None?
      ensures t.s4[i] == t.s0[i]
    {
      RunHas(t, routes, infos[i].allKey);
      OverlayEntry(t.all1, t.s2, t.all0, routes, t.s1, Accepted, i);
      OverlayEntry(t.all2, t.s3, t.all1, routes, t.s2, Active, i);
      OverlayEntry(t.all3, t.s4, t.all2, routes, t.s3, Selected, i);
      MarkedAt(infos, t.s0, t.s1, i);
    }
  }

  lemma MarkedAt(infos: seq<Info>, s: seq<ViewState>, marked: seq<ViewState>, x: nat)
    requires Marked(infos, s, marked) && x < |infos|
    ensures marked[x] == if IsRejected(infos, |infos|, x) then Filtered else s[x]
  {
  }

  /** The entries of the result are the merged keys, with the merged states. */
  lemma RunMerges(t: Trace, routes: seq<Route>, x: nat)
    requires IsRun(t, routes) && x < |routes| && IsEntry(t.all3, routes, x)
    ensures MergedAt(Infos(routes), t.s0, routes[x].info.allKey) == Some(t.s4[x])
  {
    var infos := Infos(routes);
    var key := routes[x].info.allKey;
    hide Has, Overlaid, Marked, AdjReps, IsRejected, StartsFrom, Distinct;
    RunHas(t, routes, key);
    OverlayEntry(t.all1, t.s2, t.all0, routes, t.s1, Accepted, x);
    OverlayEntry(t.all2, t.s3, t.all1, routes, t.s2, Active, x);
    OverlayEntry(t.all3, t.s4, t.all2, routes, t.s3, Selected, x);
    if Rank(infos, t.s0, key).None? {
      UnrankedEntry(t, routes, x);
    }
    hide IsRun, IsEntry;
  }

  /** Without a LocRib route for its key an entry is the representative of its Adj-RIB-In routes. */
  lemma UnrankedEntry(t: Trace, routes: seq<Route>, x: nat)
    requires IsRun(t, routes) && x < |routes| && IsEntry(t.all0, routes, x)
    requires Rank(Infos(routes), t.s0, routes[x].info.allKey).None?
    ensures MergedAt(Infos(routes), t.s0, routes[x].info.allKey) == Some(t.s1[x])
  {
    hide Rank, Overlaid, Marked, AdjReps, PrePolicies;
    RepOf(Infos(routes), routes[x].info.allKey);
    MarkedAt(Infos(routes), t.s0, t.s1, x);
    assert AdjReps(Infos(routes))[routes[x].info.allKey] == x;
  }

  lemma RunKeys(t: Trace, routes: seq<Route>, key: string)
    requires IsRun(t, routes)
    ensures Held(t.all3, routes)
    ensures key in t.all3 <==> MergedAt(Infos(routes), t.s0, key).Some?
  {
    hide Has, Overlaid, Marked, AdjReps, Held, IsEntry;
    RunHas(t, routes, key);
    OverlayKeys(t.all1, t.s2, t.all0, routes, t.s1, Accepted, key);
    OverlayKeys(t.all2, t.s3, t.all1, routes, t.s2, Active, key);
    OverlayKeys(t.all3, t.s4, t.all2, routes, t.s3, Selected, key);
    if key in AdjReps(Infos(routes)) {
      RepOf(Infos(routes), key);
    }
  }

  /** `all` holds each merged key with a route in the merged state. */
  ghost predicate ShowsMerge(all: map<string, Route>, routes: seq<Route>, s: seq<ViewState>)
    requires |routes| == |s|
    reads all.Values
  {
    forall key :: MergedAt(Infos(routes), s, key) == if key in all then Some(all[key].state) else None
  }

  /**
   * Stages 1 and 2. The states shown are the merge of the given ones, and the routes are left in
   * states that merge alike, whatever is added to them.
   */
  method ProcessResults(routes: seq<Route>) returns (all: map<string, Route>)
    requires Distinct(routes)
    modifies routes
    ensures Held(all, routes)
    ensures ShowsMerge(all, routes, old(States(routes)))
    ensures Stable(Infos(routes), old(States(routes)), States(routes))
  {
    hide IsRun, Stable, MergedAt;
    ghost var s0 := States(routes);
    ghost var t: Trace;
    all, t := RunOver(routes);
    RunIsStable(t, routes);
    forall key
      ensures Held(all, routes)
      ensures MergedAt(Infos(routes), s0, key) == if key in all then Some(all[key].state) else None
    {
      RunKeys(t, routes, key);
      if key in all {
        var x :| 0 <= x < |routes| && routes[x] == all[key];
        RunMerges(t, routes, x);
      }
    }
  }

  /** The two stages and the three loops, with the states they go through. */
  method RunOver(routes: seq<Route>) returns (all: map<string, Route>, ghost t: Trace)
    requires Distinct(routes)
    modifies routes
    ensures IsRun(t, routes)
    ensures t.all3 == all && t.s0 == old(States(routes)) && t.s4 == States(routes)
  {
    hide AdjReps, AdjIn, Overlaid, IsRejected;
    ghost var s0 := States(routes);
    var pre := CombineAdjIn(routes);
    ghost var s1 := States(routes);
    var all0 := ByAllKey(routes, pre);
    assert StartsFrom(all0, routes) && Marked(Infos(routes), s0, s1);
    hide StartsFrom, Marked;
    StartHeld(all0, routes);
    var all1 := Overlay(routes, all0, Accepted);
    ghost var s2 := States(routes);
    OverlayKeys(all1, s2, all0, routes, s1, Accepted, "");
    var all2 := Overlay(routes, all1, Active);
    ghost var s3 := States(routes);
    OverlayKeys(all2, s3, all1, routes, s2, Active, "");
    all := Overlay(routes, all2, Selected);
    t := Trace(all0, all1, all2, all, s0, s1, s2, s3, States(routes));
  }

  // ---- The stream --------------------------------------------------------------------------

  /** The routes among the items read so far; other items are no routes. */
  ghost function RoutesOf(items: seq<Option<Route>>): seq<Route> {
    if items == [] then []
    else
      var last := items[|items| - 1];
      RoutesOf(items[..|items| - 1]) + if last.Some? then [last.value] else []
  }

  /** The view after some items: every key with the merge of the states the routes arrived with. */
  ghost predicate IsView(view: map<string, ViewState>, infos: seq<Info>, arrived: seq<ViewState>)
    requires |infos| == |arrived|
  {
    forall key :: Get(view, key) == MergedAt(infos, arrived, key)
  }

  /** An item is read at most once, so no route object comes twice. */
  ghost predicate ReadOnce(items: seq<Option<Route>>) {
    forall i, j :: 0 <= i < j < |items| && items[i].Some? && items[j].Some? ==> items[i].value != items[j].value
  }

  ghost function Objects(items: seq<Option<Route>>): set<Route> {
    set i | 0 <= i < |items| && items[i].Some? :: items[i].value
  }

  lemma RoutesOfMore(items: seq<Option<Route>>, i: nat)
    requires i < |items|
    ensures RoutesOf(items[..i + 1]) == RoutesOf(items[..i]) + if items[i].Some? then [items[i].value] else []
  {
    assert items[..i + 1][..i] == items[..i];
  }

  lemma {:induction false} RoutesOfOnce(items: seq<Option<Route>>, n: nat)
    requires ReadOnce(items) && n <= |items|
    ensures Distinct(RoutesOf(items[..n]))
    ensures forall r :: r in RoutesOf(items[..n]) <==> exists i :: 0 <= i < n && items[i] == Some(r)
    ensures forall r :: r in RoutesOf(items[..n]) ==> r in Objects(items)
  {
    if n > 0 {
      RoutesOfOnce(items, n - 1);
      assert items[..n][..n - 1] == items[..n - 1];
    }
  }

  /** Merging changed states again shows what merging the arrived ones would. */
  lemma MergedAgain(view: map<string, ViewState>, infos: seq<Info>, arrived: seq<ViewState>, states: seq<ViewState>)
    requires Stable(infos, arrived, states) && IsView(view, infos, states)
    ensures IsView(view, infos, arrived)
  {
    hide MergedAt, Rank;
    forall key
      ensures Get(view, key) == MergedAt(infos, arrived, key)
    {
      StableMergesAlike(infos, arrived, states, key);
    }
  }

  /** One more run over routes that earlier runs have changed. */
  method MergeAgain(results: seq<Route>, ghost arrived: seq<ViewState>) returns (view: map<string, ViewState>)
    requires Distinct(results) && Stable(Infos(results), arrived, States(results))
    modifies results
    ensures IsView(view, Infos(results), arrived)
    ensures Stable(Infos(results), arrived, States(results))
  {
    hide MergedAt, Rank, Distinct;
    ghost var states := States(results);
    var all := ProcessResults(results);
    StableChain(Infos(results), arrived, states, States(results));
    view := map k | k in all :: all[k].state;
    MergedAgain(view, Infos(results), arrived, states);
  }

  /** One item of the stream: its route, if it is one, is added, and all routes are merged again. */
  method ReadItem(items: seq<Option<Route>>, i: nat, results: seq<Route>, ghost arrived: seq<ViewState>)
    returns (more: seq<Route>, ghost given: seq<ViewState>, view: map<string, ViewState>)
    requires ReadOnce(items) && i < |items| && results == RoutesOf(items[..i]) && |arrived| == |results|
    requires Stable(Infos(results), arrived, States(results))
    modifies RoutesOf(items[..i + 1])
    ensures more == RoutesOf(items[..i + 1])
    ensures given == arrived + if items[i].Some? then [old(items[i].value.state)] else []
    ensures |given| == |more| && IsView(view, Infos(more), given) && Stable(Infos(more), given, States(more))
  {
    RoutesOfMore(items, i);
    RoutesOfOnce(items, i + 1);
    hide Stable, Distinct, ReadOnce, IsView, RoutesOf;
    more, given := results, arrived;
    if items[i].Some? {
      var route := items[i].value;
      more, given := results + [route], arrived + [route.state];
      StableMore(Infos(results), arrived, States(results), route.info, route.state);
      assert Infos(more) == Infos(results) + [route.info];
      assert States(more) == States(results) + [route.state];
    }
    assert more == RoutesOf(items[..i + 1]);
    view := MergeAgain(more, given);
  }

  /** The states that routes had when `given` was taken down. */
  ghost function StatesIn(given: map<Route, ViewState>, routes: seq<Route>): (states: seq<ViewState>)
    ensures |states| == |routes|
  {
    seq(|routes|, i requires 0 <= i < |routes| => if routes[i] in given then given[routes[i]] else Seen)
  }

  /** The views so far are those of the states that the routes arrived with. */
  ghost predicate Shown(items: seq<Option<Route>>, views: seq<map<string, ViewState>>, given: map<Route, ViewState>)
    requires |views| <= |items|
  {
    forall n :: 0 <= n < |views| ==>
      IsView(views[n], Infos(RoutesOf(items[..n + 1])), StatesIn(given, RoutesOf(items[..n + 1])))
  }

  lemma ShownMore(items: seq<Option<Route>>, views: seq<map<string, ViewState>>, given: map<Route, ViewState>,
                  view: map<string, ViewState>)
    requires |views| < |items| && Shown(items, views, given)
    requires var routes := RoutesOf(items[..|views| + 1]); IsView(view, Infos(routes), StatesIn(given, routes))
    ensures Shown(items, views + [view], given)
  {
    hide IsView, RoutesOf, StatesIn;
    var all := views + [view];
    forall n | 0 <= n < |all|
      ensures IsView(all[n], Infos(RoutesOf(items[..n + 1])), StatesIn(given, RoutesOf(items[..n + 1])))
    {
      assert n < |views| ==> all[n] == views[n];
    }
  }

  /**
   * The results are merged again after every item. Each time the view is the merge of the states
   * the routes arrived with, as one run over fresh copies would show it.
   */
  method ShowStream(items: seq<Option<Route>>) returns (views: seq<map<string, ViewState>>)
    requires ReadOnce(items)
    modifies Objects(items)
    ensures |views| == |items|
    ensures forall n :: 0 <= n < |items| ==>
              IsView(views[n], Infos(RoutesOf(items[..n + 1])), old(States(RoutesOf(items[..n + 1]))))
  {
    ghost var given := map r | r in Objects(items) :: r.state;
    forall n | 0 <= n <= |items|
      ensures StatesIn(given, RoutesOf(items[..n])) == old(States(RoutesOf(items[..n])))
    {
      GivenStates(items, given, n);
    }
    var results: seq<Route> := [];
    ghost var arrived: seq<ViewState> := [];
    views := [];
    assert results == RoutesOf(items[..0]) && arrived == States(results);
    StableItself(Infos(results), arrived);
    hide Stable, Distinct, ReadOnce, IsView, RoutesOf, Shown, Infos, StatesIn;
    for i := 0 to |items|
      invariant |views| == i && Shown(items, views, given)
      invariant results == RoutesOf(items[..i]) && arrived == StatesIn(given, results)
      invariant Stable(Infos(results), arrived, States(results))
      invariant forall j :: i <= j < |items| && items[j].Some? ==> items[j].value.state == given[items[j].value]
    {
      StatesInMore(items, given, i);
      NotYetRead(items, i + 1);
      var view;
      results, arrived, view := ReadItem(items, i, results, arrived);
      ShownMore(items, views, given, view);
      views := views + [view];
    }
    forall n | 0 <= n < |items|
      ensures IsView(views[n], Infos(RoutesOf(items[..n + 1])), old(States(RoutesOf(items[..n + 1]))))
    {
      ShownAt(items, views, given, n);
    }
  }

  lemma GivenStates(items: seq<Option<Route>>, given: map<Route, ViewState>, n: nat)
    requires ReadOnce(items) && n <= |items|
    requires forall r :: r in Objects(items) ==> r in given && given[r] == r.state
    ensures StatesIn(given, RoutesOf(items[..n])) == States(RoutesOf(items[..n]))
  {
    RoutesOfOnce(items, n);
  }

  lemma StatesInMore(items: seq<Option<Route>>, given: map<Route, ViewState>, i: nat)
    requires ReadOnce(items) && i < |items| && given.Keys == Objects(items)
    ensures forall r :: r in RoutesOf(items[..i + 1]) ==> r in Objects(items)
    ensures StatesIn(given, RoutesOf(items[..i + 1])) ==
            StatesIn(given, RoutesOf(items[..i])) + if items[i].Some? then [given[items[i].value]] else []
  {
    RoutesOfMore(items, i);
    RoutesOfOnce(items, i + 1);
    hide RoutesOf;
  }

  lemma ShownAt(items: seq<Option<Route>>, views: seq<map<string, ViewState>>, given: map<Route, ViewState>, n: nat)
    requires n < |views| <= |items| && Shown(items, views, given)
    ensures IsView(views[n], Infos(RoutesOf(items[..n + 1])), StatesIn(given, RoutesOf(items[..n + 1])))
  {
  }

  lemma StableItself(infos: seq<Info>, s: seq<ViewState>)
    requires |infos| == |s|
    ensures Stable(infos, s, s)
  {
  }

  lemma NotYetRead(items: seq<Option<Route>>, n: nat)
    requires ReadOnce(items) && n <= |items|
    ensures forall j :: n <= j < |items| && items[j].Some? ==> items[j].value !in RoutesOf(items[..n])
  {
    RoutesOfOnce(items, n);
  }
}
