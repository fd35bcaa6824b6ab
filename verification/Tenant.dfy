/** Tenant membership verification: the verdicts, the cache key, and one verification run alone. */
module Tenant {
  import opened Prelude
  import TtlStore

  const CACHE_TTL_SECONDS := 45
  const CACHE_PREFIX := "tenant:membership"

  const NOT_FOUND := 5
  const INVALID_ARGUMENT := 3

  datatype GrpcCode = Number(n: int) | Name(s: string)

  /** The `code` of a thrown error and the `code` of the error it wraps. */
  datatype GrpcError = GrpcError(code: Option<GrpcCode>, inner: Option<GrpcCode>)

  datatype Reply =
    | Membership(tenantExists: bool, tenantActive: bool, membershipExists: bool, membershipActive: bool)
    | CallFailed(error: GrpcError)

  datatype TenantReply = TenantFound(active: bool) | NoTenant | LookupFailed(error: GrpcError)

  datatype Rejection =
    | ContextUnverified
    | ServiceUnavailable
    | TenantNotFound
    | TenantDisabled
    | MembershipNotFound
    | MembershipInactive

  datatype Verdict = Accepted | Rejected(why: Rejection)

  /** The outer code wins even when it is a name; only numbers count. */
  function ResolveGrpcCode(e: GrpcError): Option<int>
  {
    var candidate := if e.code.Some? then e.code else e.inner;
    if candidate.Some? && candidate.value.Number? then Some(candidate.value.n) else None
  }

  function JudgeMembership(reply: Reply): (v: Verdict)
    ensures v == Accepted <==> reply == Membership(true, true, true, true)
    ensures v == Rejected(TenantNotFound) <==> reply.Membership? && !reply.tenantExists
    ensures v == Rejected(TenantDisabled) <==> reply.Membership? && reply.tenantExists && !reply.tenantActive
    ensures v == Rejected(MembershipNotFound) <==>
              reply.Membership? && reply.tenantExists && reply.tenantActive && !reply.membershipExists
    ensures v == Rejected(MembershipInactive) <==>
              reply.Membership? && reply.tenantExists && reply.tenantActive && reply.membershipExists
              && !reply.membershipActive
    ensures v == Rejected(ContextUnverified) <==>
              && reply.CallFailed?
              && (|| reply.error.code == Some(Number(3))
                  || (reply.error.code == None && reply.error.inner == Some(Number(3))))
    ensures v == Rejected(ServiceUnavailable) <==> reply.CallFailed? && v != Rejected(ContextUnverified)
  {
    match reply
    case CallFailed(error) =>
      if ResolveGrpcCode(error) == Some(INVALID_ARGUMENT) then Rejected(ContextUnverified)
      else Rejected(ServiceUnavailable)
    case Membership(tenantExists, tenantActive, membershipExists, membershipActive) =>
      if !tenantExists then Rejected(TenantNotFound)
      else if !tenantActive then Rejected(TenantDisabled)
      else if !membershipExists then Rejected(MembershipNotFound)
      else if !membershipActive then Rejected(MembershipInactive)
      else Accepted
  }

  function JudgeTenant(reply: TenantReply): (v: Verdict)
    ensures v == Accepted <==> reply == TenantFound(true)
    ensures v == Rejected(TenantDisabled) <==> reply == TenantFound(false)
    ensures v == Rejected(ContextUnverified) <==>
              && reply.LookupFailed?
              && (|| reply.error.code == Some(Number(3))
                  || (reply.error.code == None && reply.error.inner == Some(Number(3))))
    ensures v == Rejected(TenantNotFound) <==>
              || reply.NoTenant?
              || (reply.LookupFailed? && reply.error.code == Some(Number(5)))
              || (reply.LookupFailed? && reply.error.code == None && reply.error.inner == Some(Number(5)))
    ensures v == Rejected(ServiceUnavailable) <==>
              reply.LookupFailed? && v != Rejected(ContextUnverified) && v != Rejected(TenantNotFound)
  {
    match reply
    case LookupFailed(error) =>
      var code := ResolveGrpcCode(error);
      if code == Some(NOT_FOUND) then Rejected(TenantNotFound)
      else if code == Some(INVALID_ARGUMENT) then Rejected(ContextUnverified)
      else Rejected(ServiceUnavailable)
    case NoTenant => Rejected(TenantNotFound)
    case TenantFound(active) => if active then Accepted else Rejected(TenantDisabled)
  }

  function CacheKey(userId: string, tenantId: string): string
  {
    CACHE_PREFIX + ":" + userId + ":" + tenantId
  }

  /** Only this pair has this cache key, among users with a non-empty id. */
  ghost predicate OwnsKey(userId: string, tenantId: string)
  {
    forall u, t | u != "" && CacheKey(u, t) == CacheKey(userId, tenantId) :: u == userId && t == tenantId
  }

  /** No other place in `user:tenant` could be the separator. */
  predicate OneSeparator(userId: string, tenantId: string)
  {
    userId != "" && ':' !in userId[1..] && ':' !in tenantId
  }

  lemma SameKeySameJoin(u: string, t: string, v: string, w: string)
    ensures CacheKey(u, t) == CacheKey(v, w) <==> u + ":" + t == v + ":" + w
  {
    var p := CACHE_PREFIX + ":";
    assert CacheKey(u, t) == p + (u + ":" + t);
    assert CacheKey(v, w) == p + (v + ":" + w);
    CancelPrefix(p, u + ":" + t, v + ":" + w);
  }

  /** Which pairs share a cache key with nobody: exactly those with one possible separator. */
  lemma KeyOwnership(userId: string, tenantId: string)
    requires userId != ""
    ensures OwnsKey(userId, tenantId) <==> OneSeparator(userId, tenantId)
  {
    var i := IndexOf(tenantId, ':');
    var j := IndexOf(userId[1..], ':');
    if i >= 0 {
      var u, t := userId + ":" + tenantId[..i], tenantId[i + 1..];
      assert u + ":" + t == userId + ":" + tenantId;
      SameKeySameJoin(u, t, userId, tenantId);
      assert |u| > |userId|;
    } else if j >= 0 {
      var u, t := userId[..j + 1], userId[j + 2..] + ":" + tenantId;
      assert userId == userId[..j + 1] + ":" + userId[j + 2..];
      assert u + ":" + t == userId + ":" + tenantId;
      SameKeySameJoin(u, t, userId, tenantId);
      assert |u| < |userId|;
    } else {
      forall u, t | u != "" && CacheKey(u, t) == CacheKey(userId, tenantId)
        ensures u == userId && t == tenantId
      {
        SameKeySameJoin(u, t, userId, tenantId);
        OneCut(userId, tenantId, u, t);
      }
    }
  }

  lemma OneCut(u: string, t: string, v: string, w: string)
    requires OneSeparator(u, t) && v != "" && v + ":" + w == u + ":" + t
    ensures v == u && w == t
  {
    var s := u + ":" + t;
    assert s == v + ":" + w;
    assert s[|v|] == ':';
    assert forall k | 1 <= k < |s| && k != |u| :: s[k] != ':' by {
      assert forall k | 1 <= k < |u| :: s[k] == u[1..][k - 1];
      assert forall k | |u| < k < |s| :: s[k] == t[k - |u| - 1];
    }
    assert v == s[..|v|] && w == s[|v| + 1..];
    assert u == s[..|u|] && t == s[|u| + 1..];
  }

  /** One verification of a user with no other operation in between. */
  function VerifyAlone(caching: bool, st: TtlStore.State, userId: string, tenantId: string,
                       readFails: bool, reply: Reply, writeFails: bool): (TtlStore.State, Verdict)
  {
    var key := CacheKey(userId, tenantId);
    if caching && !readFails && TtlStore.Get(st, key).Some? then (st, Accepted)
    else
      var verdict := JudgeMembership(reply);
      if caching && verdict.Accepted? && !writeFails then
        (TtlStore.Set(st, key, TtlStore.Text("1"), CACHE_TTL_SECONDS), verdict)
      else (st, verdict)
  }

  class TenantVerifierService {
    const cache: TtlStore.Store?
    const cacheOption: Option<bool>

    constructor (cache: TtlStore.Store?, cacheOption: Option<bool>)
      ensures this.cache == cache && this.cacheOption == cacheOption
    {
      this.cache := cache;
      this.cacheOption := cacheOption;
    }

    predicate Caching() { cache != null && cacheOption != Some(false) }

    method CachedHit(cacheKey: string, readFails: bool) returns (hit: bool)
      ensures hit <==> cache != null && cacheOption != Some(false) && !readFails
                       && TtlStore.View(cache.Contents(), cacheKey).Some?
    {
      if cache == null || cacheOption == Some(false) {
        return false;
      }
      if readFails {
        return false;
      }
      var value := cache.DoGet(cacheKey);
      return value.Some?;
    }

    method CachePositive(cacheKey: string, writeFails: bool)
      modifies if cache == null then {} else {cache}
      ensures cache != null ==>
                cache.Contents() ==
                if cacheOption != Some(false) && !writeFails then
                  TtlStore.Set(old(cache.Contents()), cacheKey, TtlStore.Text("1"), 45)
                else old(cache.Contents())
    {
      if cache == null || cacheOption == Some(false) {
        return;
      }
      if !writeFails {
        cache.DoSet(cacheKey, TtlStore.Text("1"), CACHE_TTL_SECONDS);
      }
    }

    /** The two replies are what the tenant service would answer if it is asked. */
    method Verify(userId: Option<string>, tenantId: string, readFails: bool, reply: Reply,
                  tenantReply: TenantReply, writeFails: bool) returns (verdict: Verdict)
      modifies if cache == null then {} else {cache}
      ensures userId.None? || userId.value == "" ==>
                verdict == JudgeTenant(tenantReply)
                && (cache != null ==> cache.Contents() == old(cache.Contents()))
      ensures userId.Some? && userId.value != "" && cache == null ==> verdict == JudgeMembership(reply)
      ensures userId.Some? && userId.value != "" && cache != null ==>
                (cache.Contents(), verdict)
                  == VerifyAlone(Caching(), old(cache.Contents()), userId.value, tenantId,
                                 readFails, reply, writeFails)
      ensures userId.Some? && userId.value != "" && cache != null ==>
                var key := "tenant:membership:" + userId.value + ":" + tenantId;
                var caching := cacheOption != Some(false);
                var hit := caching && !readFails && old(TtlStore.View(cache.Contents(), key)).Some?;
                && verdict == (if hit then Accepted else JudgeMembership(reply))
                && cache.now == old(cache.now)
                && cache.entries ==
                   if !hit && caching && !writeFails && verdict.Accepted? then
                     old(cache.entries)[key := TtlStore.Entry(TtlStore.Text("1"), Some(cache.now + 45))]
                   else old(cache.entries)
    {
      if userId.Some? && userId.value != "" {
        var cacheKey := CacheKey(userId.value, tenantId);
        assert CACHE_PREFIX + ":" == "tenant:membership:";
        var hit := CachedHit(cacheKey, readFails);
        if hit {
          return Accepted;
        }
        verdict := JudgeMembership(reply);
        if verdict.Rejected? {
          return;
        }
        CachePositive(cacheKey, writeFails);
        return;
      }
      verdict := JudgeTenant(tenantReply);
    }
  }
}
