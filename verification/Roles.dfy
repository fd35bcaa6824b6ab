/** Role extraction from a token payload: collect, dedupe, trim, filter, dedupe. */
module Roles {
  import opened Prelude

  /** Compared against lower-cased names, so the last entry can never match. */
  const IGNORED := ["offline_access", "uma_authorization", "default-roles-omnixys",
                    "default-roles-master", "realm-admin", "Default user role"]

  function LowerChar(c: char): char
  {
    if 'A' <= c <= 'Z' then (c as int + 32) as char else c
  }

  /** Lower case, for the letters that occur in ignored names. */
  function Lower(s: string): string
  {
    seq(|s|, i requires 0 <= i < |s| => LowerChar(s[i]))
  }

  /** Upper-case ASCII letters become their small ones, and nothing else changes. */
  lemma LowerIsExact(s: string, i: nat)
    requires i < |s|
    ensures |Lower(s)| == |s|
    ensures forall k | 0 <= k < 26 && s[i] == "ABCDEFGHIJKLMNOPQRSTUVWXYZ"[k] ::
              Lower(s)[i] == "abcdefghijklmnopqrstuvwxyz"[k]
    ensures s[i] !in "ABCDEFGHIJKLMNOPQRSTUVWXYZ" ==> Lower(s)[i] == s[i]
  {
    var upper := "ABCDEFGHIJKLMNOPQRSTUVWXYZ";
    assert forall k | 0 <= k < 26 :: upper[k] as int == 65 + k;
    assert forall k | 0 <= k < 26 :: "abcdefghijklmnopqrstuvwxyz"[k] as int == 97 + k;
    if 'A' <= s[i] <= 'Z' {
      assert upper[s[i] as int - 65] == s[i];
    }
  }

  predicate Ignored(role: string)
  {
    Lower(role) in IGNORED
  }

  /** Each element once, where it first occurs; what spreading a `Set` gives. */
  function Dedupe(s: seq<string>): seq<string>
  {
    if s == [] then []
    else
      var before, last := Dedupe(s[..|s| - 1]), s[|s| - 1];
      if last in before then before else before + [last]
  }

  function TrimAll(s: seq<string>): (r: seq<string>)
    ensures |r| == |s|
    ensures forall i | 0 <= i < |s| :: r[i] == Trim(s[i])
  {
    seq(|s|, i requires 0 <= i < |s| => Trim(s[i]))
  }

  /** The roles that name a member of `valid` and are not technical. */
  function Keep(s: seq<string>, valid: set<string>): seq<string>
  {
    if s == [] then []
    else
      var before, last := Keep(s[..|s| - 1], valid), s[|s| - 1];
      if !Ignored(last) && last in valid then before + [last] else before
  }

  /** `filterRelevantRoles`; `valid` holds the names of the role enumeration. */
  function FilterRelevant(roles: seq<string>, valid: set<string>): seq<string>
  {
    Dedupe(Keep(TrimAll(roles), valid))
  }

  function Flatten(resources: seq<Option<seq<string>>>): seq<string>
  {
    if resources == [] then []
    else
      var last := resources[|resources| - 1];
      Flatten(resources[..|resources| - 1]) + (if last.Some? then last.value else [])
  }

  function AllRoles(realm: Option<seq<string>>, resources: Option<seq<Option<seq<string>>>>): seq<string>
  {
    (if realm.Some? then realm.value else []) + (if resources.Some? then Flatten(resources.value) else [])
  }

  /** The one-line specification: trim, filter, dedupe, in order. */
  function Extracted(realm: Option<seq<string>>, resources: Option<seq<Option<seq<string>>>>,
                     valid: set<string>): seq<string>
  {
    FilterRelevant(AllRoles(realm, resources), valid)
  }

  /** A role of the payload trims to `x`: the `k`-th of the realm (`group` 0) or of resource `group` - 1. */
  predicate NamedAt(realm: Option<seq<string>>, resources: Option<seq<Option<seq<string>>>>,
                    group: nat, k: nat, x: string)
  {
    if group == 0 then realm.Some? && k < |realm.value| && Trim(realm.value[k]) == x
    else
      && resources.Some? && group - 1 < |resources.value| && resources.value[group - 1].Some?
      && k < |resources.value[group - 1].value| && Trim(resources.value[group - 1].value[k]) == x
  }

  /** Realm roles come first, then each resource's in turn. */
  predicate Earlier(group: nat, k: nat, group': nat, k': nat)
  {
    group < group' || (group == group' && k < k')
  }

  /** Some place that names `x` comes before all that name `y`. */
  ghost predicate NamedBefore(realm: Option<seq<string>>, resources: Option<seq<Option<seq<string>>>>,
                              x: string, y: string)
  {
    exists group, k ::
      && NamedAt(realm, resources, group, k, x)
      && forall group', k' | NamedAt(realm, resources, group', k', y) :: Earlier(group, k, group', k')
  }

  method ExtractUserRoles(realm: Option<seq<string>>, resources: Option<seq<Option<seq<string>>>>,
                          valid: set<string>) returns (roles: seq<string>)
    ensures roles == Extracted(realm, resources, valid)
    ensures forall i, j | 0 <= i < j < |roles| :: roles[i] != roles[j]
    ensures forall x :: x in roles <==>
              && x in valid
              && Lower(x) !in {"offline_access", "uma_authorization", "default-roles-omnixys", "default-roles-master",
                               "realm-admin"}
              && exists group, k :: NamedAt(realm, resources, group, k, x)
    ensures forall i, j | 0 <= i < j < |roles| :: NamedBefore(realm, resources, roles[i], roles[j])
  {
    var realmRoles := if realm.Some? then realm.value else [];
    var resourceRoles: seq<string> := [];
    if resources.Some? {
      for n := 0 to |resources.value|
        invariant resourceRoles == Flatten(resources.value[..n])
      {
        assert resources.value[..n + 1][..n] == resources.value[..n];
        var own := resources.value[n];
        resourceRoles := resourceRoles + (if own.Some? then own.value else []);
      }
      assert resources.value[..|resources.value|] == resources.value;
    }
    var allRoles := Dedupe(realmRoles + resourceRoles);
    roles := FilterRelevant(allRoles, valid);
    EarlyDedupeIsHarmless(realmRoles + resourceRoles, valid);
    ExtractedIsExact(realm, resources, valid);
    ExtractedOrder(realm, resources, valid);
    hide NamedAt, NamedBefore, Extracted, FilterRelevant, Lower;
  }

  predicate Distinct(s: seq<string>)
  {
    forall i, j | 0 <= i < j < |s| :: s[i] != s[j]
  }

  lemma {:induction false} DedupeMembers(s: seq<string>)
    ensures Distinct(Dedupe(s))
    ensures forall x :: x in Dedupe(s) <==> x in s
    decreases |s|
  {
    if s != [] {
      DedupeMembers(s[..|s| - 1]);
      assert s == s[..|s| - 1] + [s[|s| - 1]];
    }
  }

  lemma {:induction false} DedupeDistinct(s: seq<string>)
    requires Distinct(s)
    ensures Dedupe(s) == s
    decreases |s|
  {
    if s != [] {
      DedupeDistinct(s[..|s| - 1]);
      assert s == s[..|s| - 1] + [s[|s| - 1]];
    }
  }

  lemma {:induction false} KeepMembers(s: seq<string>, valid: set<string>)
    ensures forall x :: x in Keep(s, valid) <==> x in s && !Ignored(x) && x in valid
    decreases |s|
  {
    hide Ignored;
    if s != [] {
      KeepMembers(s[..|s| - 1], valid);
      assert s == s[..|s| - 1] + [s[|s| - 1]];
    }
  }

  /** The texts a list trims to, each where it first occurs, are all the filter needs. */
  lemma {:induction false} EarlyDedupeIsHarmless(s: seq<string>, valid: set<string>)
    ensures FilterRelevant(Dedupe(s), valid) == FilterRelevant(s, valid)
    decreases |s|
  {
    if s == [] {
      return;
    }
    hide Ignored, FilterRelevant, Dedupe, Trim;
    var before, last := s[..|s| - 1], s[|s| - 1];
    assert s == before + [last];
    EarlyDedupeIsHarmless(before, valid);
    FilterSnoc(before, last, valid);
    DedupeSnoc(before, last);
    DedupeMembers(before);
    var deduped := Dedupe(before);
    if last in deduped {
      if !Ignored(Trim(last)) && Trim(last) in valid {
        SeenAddsNothing(before, last, valid);
      }
    } else {
      FilterSnoc(deduped, last, valid);
    }
  }

  lemma DedupeSnoc(s: seq<string>, last: string)
    ensures Dedupe(s + [last]) == if last in Dedupe(s) then Dedupe(s) else Dedupe(s) + [last]
  {
    assert (s + [last])[..|s|] == s;
  }

  /** What a role among `s` trims to is in the result already, if it may be at all. */
  lemma SeenAddsNothing(s: seq<string>, role: string, valid: set<string>)
    requires role in s && !Ignored(Trim(role)) && Trim(role) in valid
    ensures Trim(role) in FilterRelevant(s, valid)
  {
    hide Ignored, Trim;
    DedupeMembers(Keep(TrimAll(s), valid));
    KeepMembers(TrimAll(s), valid);
    var i :| 0 <= i < |s| && s[i] == role;
    assert TrimAll(s)[i] == Trim(role);
  }

  lemma FilterSnoc(s: seq<string>, last: string, valid: set<string>)
    ensures FilterRelevant(s + [last], valid) ==
      var before := FilterRelevant(s, valid);
      if !Ignored(Trim(last)) && Trim(last) in valid && Trim(last) !in before then before + [Trim(last)] else before
  {
    hide Ignored;
    var trimmed := TrimAll(s + [last]);
    assert trimmed[..|s|] == TrimAll(s);
    assert trimmed[|s|] == Trim(last);
    var kept := Keep(TrimAll(s), valid);
    assert (kept + [Trim(last)])[..|kept|] == kept;
  }

  /** Where a resource's `k`-th role stands among all resource roles. */
  lemma {:induction false} FlattenAt(resources: seq<Option<seq<string>>>, r: nat, k: nat)
    requires r < |resources| && resources[r].Some? && k < |resources[r].value|
    ensures |Flatten(resources[..r])| + k < |Flatten(resources)|
    ensures Flatten(resources)[|Flatten(resources[..r])| + k] == resources[r].value[k]
    decreases |resources|
  {
    var before := resources[..|resources| - 1];
    if r < |before| {
      assert before[..r] == resources[..r];
      FlattenAt(before, r, k);
    }
  }

  /** Every resource role stands somewhere. */
  lemma {:induction false} FlattenFrom(resources: seq<Option<seq<string>>>, n: nat) returns (r: nat, k: nat)
    requires n < |Flatten(resources)|
    ensures r < |resources| && resources[r].Some? && k < |resources[r].value|
    ensures n == |Flatten(resources[..r])| + k
    decreases |resources|
  {
    var before := resources[..|resources| - 1];
    if n < |Flatten(before)| {
      r, k := FlattenFrom(before, n);
      assert before[..r] == resources[..r];
    } else {
      r, k := |before|, n - |Flatten(before)|;
    }
  }

  lemma {:induction false} FlattenGrows(resources: seq<Option<seq<string>>>, r: nat, r': nat)
    requires r < r' <= |resources| && resources[r].Some?
    ensures |Flatten(resources[..r])| + |resources[r].value| <= |Flatten(resources[..r'])|
    decreases r'
  {
    assert resources[..r'][..r' - 1] == resources[..r' - 1];
    if r < r' - 1 {
      FlattenGrows(resources, r, r' - 1);
    }
  }

  /** The place of a role among all collected ones. */
  function PlaceOf(realm: Option<seq<string>>, resources: Option<seq<Option<seq<string>>>>, group: nat, k: nat): nat
  {
    if group == 0 || resources.None? || group - 1 > |resources.value| then k
    else (if realm.Some? then |realm.value| else 0) + |Flatten(resources.value[..group - 1])| + k
  }

  lemma NamedIsCollected(realm: Option<seq<string>>, resources: Option<seq<Option<seq<string>>>>,
                         group: nat, k: nat, x: string)
    requires NamedAt(realm, resources, group, k, x)
    ensures
      var all, n := AllRoles(realm, resources), PlaceOf(realm, resources, group, k);
      n < |all| && Trim(all[n]) == x
  {
    hide Trim;
    if group > 0 {
      FlattenAt(resources.value, group - 1, k);
    }
  }

  lemma CollectedIsNamed(realm: Option<seq<string>>, resources: Option<seq<Option<seq<string>>>>, n: nat)
    returns (group: nat, k: nat)
    requires n < |AllRoles(realm, resources)|
    ensures NamedAt(realm, resources, group, k, Trim(AllRoles(realm, resources)[n]))
    ensures PlaceOf(realm, resources, group, k) == n
  {
    hide Trim;
    var own := if realm.Some? then realm.value else [];
    if n < |own| {
      group, k := 0, n;
    } else {
      var r, i := FlattenFrom(resources.value, n - |own|);
      FlattenAt(resources.value, r, i);
      group, k := r + 1, i;
    }
  }

  lemma PlacesAreOrdered(realm: Option<seq<string>>, resources: Option<seq<Option<seq<string>>>>,
                         group: nat, k: nat, x: string, group': nat, k': nat, y: string)
    requires NamedAt(realm, resources, group, k, x) && NamedAt(realm, resources, group', k', y)
    ensures Earlier(group, k, group', k') <==>
              PlaceOf(realm, resources, group, k) < PlaceOf(realm, resources, group', k')
  {
    hide Trim, Flatten;
    if 0 < group < group' {
      FlattenGrows(resources.value, group - 1, group' - 1);
    } else if 0 < group' < group {
      FlattenGrows(resources.value, group' - 1, group - 1);
    }
  }

  lemma IgnoredNames(x: string)
    ensures Ignored(x) <==>
              Lower(x) in {"offline_access", "uma_authorization", "default-roles-omnixys", "default-roles-master",
                           "realm-admin"}
  {
    DefaultUserRoleIsNotIgnored(x);
    hide Lower;
  }

  /** The result holds, without repeats, exactly the valid and non-technical names some role trims to. */
  lemma ExtractedIsExact(realm: Option<seq<string>>, resources: Option<seq<Option<seq<string>>>>,
                         valid: set<string>)
    ensures
      var roles := Extracted(realm, resources, valid);
      && Distinct(roles)
      && forall x :: x in roles <==>
           && x in valid
           && Lower(x) !in {"offline_access", "uma_authorization", "default-roles-omnixys", "default-roles-master",
                            "realm-admin"}
           && exists group, k :: NamedAt(realm, resources, group, k, x)
  {
    hide Ignored, AllRoles, NamedAt, Lower, Trim;
    var all := AllRoles(realm, resources);
    var trimmed := TrimAll(all);
    DedupeMembers(Keep(trimmed, valid));
    KeepMembers(trimmed, valid);
    forall x
      ensures Ignored(x) <==>
                Lower(x) in {"offline_access", "uma_authorization", "default-roles-omnixys", "default-roles-master",
                             "realm-admin"}
      ensures x in trimmed <==> exists group, k :: NamedAt(realm, resources, group, k, x)
    {
      IgnoredNames(x);
      CollectedNames(realm, resources, x);
    }
  }

  lemma CollectedNames(realm: Option<seq<string>>, resources: Option<seq<Option<seq<string>>>>, x: string)
    ensures x in TrimAll(AllRoles(realm, resources)) <==> exists group, k :: NamedAt(realm, resources, group, k, x)
  {
    hide AllRoles, NamedAt, Trim;
    var all := AllRoles(realm, resources);
    if x in TrimAll(all) {
      var n :| 0 <= n < |all| && TrimAll(all)[n] == x;
      var group, k := CollectedIsNamed(realm, resources, n);
    }
    if group, k :| NamedAt(realm, resources, group, k, x) {
      NamedIsCollected(realm, resources, group, k, x);
      hide PlaceOf;
      assert TrimAll(all)[PlaceOf(realm, resources, group, k)] == x;
    }
  }

  /** Each name stands where it first occurs: in the realm before the resources, and in these in turn. */
  lemma ExtractedOrder(realm: Option<seq<string>>, resources: Option<seq<Option<seq<string>>>>, valid: set<string>)
    ensures
      var roles := Extracted(realm, resources, valid);
      forall i, j | 0 <= i < j < |roles| :: NamedBefore(realm, resources, roles[i], roles[j])
  {
    var roles := Extracted(realm, resources, valid);
    forall i, j | 0 <= i < j < |roles|
      ensures NamedBefore(realm, resources, roles[i], roles[j])
    {
      OrderedPair(realm, resources, valid, i, j);
    }
  }

  lemma OrderedPair(realm: Option<seq<string>>, resources: Option<seq<Option<seq<string>>>>, valid: set<string>,
                    i: nat, j: nat)
    requires i < j < |Extracted(realm, resources, valid)|
    ensures
      var roles := Extracted(realm, resources, valid);
      NamedBefore(realm, resources, roles[i], roles[j])
  {
    var all := AllRoles(realm, resources);
    var roles, trimmed := Extracted(realm, resources, valid), TrimAll(all);
    FilterKeepsOrder(all, valid, i, j);
    hide FilterRelevant, NamedAt, Earlier, Trim, AllRoles;
    var group, k := CollectedIsNamed(realm, resources, FirstAt(trimmed, roles[i]));
    forall group', k' | NamedAt(realm, resources, group', k', roles[j])
      ensures Earlier(group, k, group', k')
    {
      NamedIsCollected(realm, resources, group', k', roles[j]);
      PlacesAreOrdered(realm, resources, group, k, roles[i], group', k', roles[j]);
      FirstAtIsFirst(trimmed, roles[j], PlaceOf(realm, resources, group', k'));
    }
  }

  lemma FirstAtIsFirst(s: seq<string>, x: string, n: nat)
    requires n < |s| && s[n] == x
    ensures FirstAt(s, x) <= n
  {
    var i := FirstAt(s, x);
    assert forall m | 0 <= m < i :: s[m] == s[..i][m] && s[m] in s[..i];
  }

  /** Filtering what was filtered changes nothing. */
  lemma FilterIsIdempotent(roles: seq<string>, valid: set<string>)
    ensures FilterRelevant(FilterRelevant(roles, valid), valid) == FilterRelevant(roles, valid)
  {
    hide Ignored;
    var kept := Keep(TrimAll(roles), valid);
    var r := FilterRelevant(roles, valid);
    DedupeMembers(kept);
    KeepMembers(TrimAll(roles), valid);
    forall i | 0 <= i < |r|
      ensures Trim(r[i]) == r[i]
    {
      assert r[i] in r;
      var j :| 0 <= j < |roles| && TrimAll(roles)[j] == r[i];
      TrimTrims(roles[j]);
    }
    assert TrimAll(r) == r;
    assert forall x | x in r :: !Ignored(x) && x in valid;
    KeepAll(r, valid);
    DedupeDistinct(r);
  }

  lemma {:induction false} KeepAll(s: seq<string>, valid: set<string>)
    requires forall x | x in s :: !Ignored(x) && x in valid
    ensures Keep(s, valid) == s
    decreases |s|
  {
    hide Ignored;
    if s != [] {
      KeepAll(s[..|s| - 1], valid);
      assert s == s[..|s| - 1] + [s[|s| - 1]];
    }
  }

  /** The position where a text first occurs. */
  function FirstAt(s: seq<string>, x: string): (i: nat)
    requires x in s
    ensures i < |s| && s[i] == x && x !in s[..i]
  {
    if s[0] == x then 0
    else
      var i := FirstAt(s[1..], x);
      assert s[..i + 1] == [s[0]] + s[1..][..i];
      i + 1
  }

  /** The result keeps the order in which its members first occur among the trimmed roles. */
  lemma {:induction false} FilterKeepsOrder(s: seq<string>, valid: set<string>, i: nat, j: nat)
    requires i < j < |FilterRelevant(s, valid)|
    ensures
      var r, trimmed := FilterRelevant(s, valid), TrimAll(s);
      r[i] in trimmed && r[j] in trimmed && FirstAt(trimmed, r[i]) < FirstAt(trimmed, r[j])
    decreases |s|
  {
    hide Ignored, Trim;
    var before, last := s[..|s| - 1], s[|s| - 1];
    assert s == before + [last];
    FilterSnoc(before, last, valid);
    var r, trimmed := FilterRelevant(before, valid), TrimAll(before);
    assert TrimAll(s) == trimmed + [Trim(last)];
    MembersComeFrom(before, valid);
    assert r[i] in r;
    FirstAtExtends(trimmed, [Trim(last)], r[i]);
    if j < |r| {
      FilterKeepsOrder(before, valid, i, j);
      FirstAtExtends(trimmed, [Trim(last)], r[j]);
    } else {
      NewIsUnseen(before, Trim(last), valid);
      hide FilterRelevant, TrimAll;
      FirstAtEnd(trimmed, Trim(last));
    }
  }

  /** A valid name that the result lacks is no role's. */
  lemma NewIsUnseen(s: seq<string>, x: string, valid: set<string>)
    requires !Ignored(x) && x in valid && x !in FilterRelevant(s, valid)
    ensures x !in TrimAll(s)
  {
    hide Ignored, Trim;
    DedupeMembers(Keep(TrimAll(s), valid));
    KeepMembers(TrimAll(s), valid);
  }

  lemma FirstAtEnd(s: seq<string>, x: string)
    requires x !in s
    ensures x in s + [x] && FirstAt(s + [x], x) == |s|
  {
    var t := s + [x];
    assert t[|s|] == x;
    assert forall n | 0 <= n < |s| :: t[n] == s[n] && s[n] in s;
  }

  lemma MembersComeFrom(s: seq<string>, valid: set<string>)
    ensures forall x | x in FilterRelevant(s, valid) :: x in TrimAll(s)
  {
    hide Ignored;
    DedupeMembers(Keep(TrimAll(s), valid));
    KeepMembers(TrimAll(s), valid);
  }

  lemma FirstAtExtends(s: seq<string>, t: seq<string>, x: string)
    requires x in s
    ensures x in s + t && FirstAt(s + t, x) == FirstAt(s, x)
  {
    var i, k := FirstAt(s + t, x), FirstAt(s, x);
    assert (s + t)[k] == x;
    assert forall n | 0 <= n < k :: (s + t)[n] == s[n] && s[n] in s[..k];
    assert forall n | k < n <= |s + t| :: (s + t)[..n][k] == x;
  }

  /** The entry for the default user role is dead: no role lower-cases to it. */
  lemma DefaultUserRoleIsNotIgnored(role: string)
    ensures Lower(role) != "Default user role"
    ensures !Ignored("Default user role")
  {
    var name := "Default user role";
    assert name[0] == 'D';
    assert |role| > 0 ==> Lower(role)[0] != 'D';
    var low := Lower(name);
    assert low[0] == 'd' && low[1] == 'e' && low[7] == ' ';
  }
}
