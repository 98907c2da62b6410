/** The magic-link store: a link is created for an email and a device with a 15-minute lifetime, a
    token is verified in place until its expiry instant, and a device asks whether its newest link has
    been verified. */
module AuthService {
  import opened Wrappers
  import opened Db

  /** `15 * 60 * 1000` milliseconds. */
  const LinkLifetimeMs: int := 900000

  function HasToken(token: string): MagicLink -> bool {
    (l: MagicLink) => l.token == token
  }

  /** The `token` column is unique. */
  ghost predicate UniqueTokens(links: seq<MagicLink>) {
    forall i, j :: 0 <= i < j < |links| ==> links[i].token != links[j].token
  }

  /** The row `sendMagicLink` creates: no property, not verified, expiring 15 minutes after `now`. */
  function NewLink(email: string, deviceId: string, token: string, now: int): (l: MagicLink)
    ensures l.expiresAt - l.createdAt == LinkLifetimeMs && !l.verified && l.propertyId.None?
  {
    MagicLink(token, email, deviceId, None, now + LinkLifetimeMs, false, now)
  }

  /** `sendMagicLink` without the email delivery: `token` stands for the fresh random UUID. */
  method SendMagicLink(db: Store, email: string, deviceId: string, token: string, now: int) returns (success: bool)
    requires forall l :: l in db.magicLinks ==> l.token != token
    modifies db`magicLinks
    ensures db.magicLinks == old(db.magicLinks) + [NewLink(email, deviceId, token, now)]
    ensures UniqueTokens(old(db.magicLinks)) ==> UniqueTokens(db.magicLinks)
    ensures success
  {
    db.magicLinks := db.magicLinks + [NewLink(email, deviceId, token, now)];
    success := true;
  }

  /** What `verifyToken` answers: the token is known and its link has not expired (`expiresAt < now`
      is expired, so the expiry instant itself still verifies). */
  function VerifyOutcome(links: seq<MagicLink>, token: string, now: int): (ok: bool)
    ensures ok <==> exists l :: l in links && l.token == token && now <= l.expiresAt && FindFirst(links, HasToken(token)) == Some(l)
  {
    var link := FindFirst(links, HasToken(token));
    link.Some? && !(link.value.expiresAt < now)
  }

  /** `magicLink.update({ where: { token }, data: { verified: true } })`. */
  function MarkVerified(links: seq<MagicLink>, token: string): (r: seq<MagicLink>)
    ensures |r| == |links|
    ensures forall i :: 0 <= i < |links| ==>
      r[i] == if links[i].token == token then links[i].(verified := true) else links[i]
  {
    seq(|links|, i requires 0 <= i < |links| => if links[i].token == token then links[i].(verified := true) else links[i])
  }

  /** The table after `verifyToken`: marked when the outcome is true, untouched otherwise. */
  function AfterVerify(links: seq<MagicLink>, token: string, now: int): seq<MagicLink> {
    if VerifyOutcome(links, token, now) then MarkVerified(links, token) else links
  }

  method VerifyToken(db: Store, token: string, now: int) returns (verified: bool)
    modifies db`magicLinks
    ensures verified == VerifyOutcome(old(db.magicLinks), token, now)
    ensures db.magicLinks == AfterVerify(old(db.magicLinks), token, now)
  {
    var link := FindFirst(db.magicLinks, HasToken(token));
    if link.None? || link.value.expiresAt < now {
      return false;
    }
    db.magicLinks := MarkVerified(db.magicLinks, token);
    return true;
  }

  /** An unknown token is refused and nothing changes. */
  lemma UnknownTokenRefused(links: seq<MagicLink>, token: string, now: int)
    requires forall l :: l in links ==> l.token != token
    ensures !VerifyOutcome(links, token, now) && AfterVerify(links, token, now) == links
  {
  }

  /** An expired link is refused and left unverified; at the expiry instant it still verifies. */
  lemma ExpiryBoundary(links: seq<MagicLink>, token: string, now: int)
    requires UniqueTokens(links)
    requires exists l :: l in links && l.token == token
    ensures var l :| l in links && l.token == token;
      && (l.expiresAt < now ==> !VerifyOutcome(links, token, now) && AfterVerify(links, token, now) == links)
      && (l.expiresAt == now ==> VerifyOutcome(links, token, now) && l.(verified := true) in AfterVerify(links, token, now))
  {
    var l :| l in links && l.token == token;
    var found := FindFirst(links, HasToken(token));
    var i :| 0 <= i < |links| && links[i] == found.value;
    var k :| 0 <= k < |links| && links[k] == l;
    assert i == k;
    if l.expiresAt == now {
      assert MarkVerified(links, token)[k] == l.(verified := true);
    }
  }

  /** A successful verification marks exactly the link of that token; every other row is unchanged. */
  lemma VerifyMarksOnlyThatLink(links: seq<MagicLink>, token: string, now: int)
    requires VerifyOutcome(links, token, now)
    ensures var after := AfterVerify(links, token, now);
      && |after| == |links|
      && forall i :: 0 <= i < |links| ==>
           if links[i].token == token then after[i].verified && after[i].(verified := links[i].verified) == links[i]
           else after[i] == links[i]
  {
  }

  /** Verifying again before expiry still answers true and changes nothing more. */
  lemma VerifyIdempotent(links: seq<MagicLink>, token: string, now: int)
    requires VerifyOutcome(links, token, now)
    ensures VerifyOutcome(AfterVerify(links, token, now), token, now)
    ensures AfterVerify(AfterVerify(links, token, now), token, now) == AfterVerify(links, token, now)
  {
    var after := AfterVerify(links, token, now);
    var l := FindFirst(links, HasToken(token)).value;
    FindFirstIsFirst(links, HasToken(token));
    var i :| IsFirst(links, HasToken(token), i);
    assert IsFirst(after, HasToken(token), i);
    FindFirstIsFirst(after, HasToken(token));
    assert MarkVerified(after, token) == after;
  }

  /** `magicLink.findFirst({ where: { deviceId }, orderBy: { createdAt: 'desc' } })`: the device's
      link created last (the later row when two were created at the same instant). */
  function NewestLink(links: seq<MagicLink>, deviceId: string): (r: Option<MagicLink>)
    ensures r.None? <==> forall l :: l in links ==> l.deviceId != deviceId
    ensures r.Some? ==>
      && r.value in links && r.value.deviceId == deviceId
      && forall l :: l in links && l.deviceId == deviceId ==> l.createdAt <= r.value.createdAt
  {
    if links == [] then None
    else
      var last := links[|links| - 1];
      var prev := NewestLink(links[..|links| - 1], deviceId);
      assert links == links[..|links| - 1] + [last];
      if last.deviceId == deviceId && (prev.None? || prev.value.createdAt <= last.createdAt) then Some(last)
      else prev
  }

  /** `checkVerification`: the `verified` flag of the device's newest link, false without one. */
  function CheckVerification(links: seq<MagicLink>, deviceId: string): (verified: bool)
    ensures (forall l :: l in links ==> l.deviceId != deviceId) ==> !verified
    ensures verified ==> exists l :: l in links && l.deviceId == deviceId && l.verified
  {
    var latest := NewestLink(links, deviceId);
    latest.Some? && latest.value.verified
  }

  /** The answer is the flag of the device's link created strictly after all its others. */
  lemma CheckReportsNewest(links: seq<MagicLink>, deviceId: string, i: int)
    requires 0 <= i < |links| && links[i].deviceId == deviceId
    requires forall j :: 0 <= j < |links| && j != i && links[j].deviceId == deviceId ==> links[j].createdAt < links[i].createdAt
    ensures CheckVerification(links, deviceId) == links[i].verified
  {
    assert links[i] in links;
    var newest := NewestLink(links, deviceId).value;
    var j :| 0 <= j < |links| && links[j] == newest;
  }

  /** A link created no earlier than the device's other links is its newest once appended. */
  lemma NewestOfAppended(links: seq<MagicLink>, l: MagicLink)
    requires forall x :: x in links && x.deviceId == l.deviceId ==> x.createdAt <= l.createdAt
    ensures NewestLink(links + [l], l.deviceId) == Some(l)
  {
    assert (links + [l])[..|links|] == links;
  }

  /** A link sent for a device, verified before it expires, and not followed by a newer link of that
      device, makes the device's check answer true. */
  lemma SendVerifyCheck(links: seq<MagicLink>, email: string, deviceId: string, token: string, now: int, later: int)
    requires forall l :: l in links ==> l.token != token
    requires forall l :: l in links && l.deviceId == deviceId ==> l.createdAt <= now
    requires later <= now + LinkLifetimeMs
    ensures var sent := links + [NewLink(email, deviceId, token, now)];
      VerifyOutcome(sent, token, later) && CheckVerification(AfterVerify(sent, token, later), deviceId)
  {
    var link := NewLink(email, deviceId, token, now);
    var sent := links + [link];
    FindFirstIsFirst(sent, HasToken(token));
    assert IsFirst(sent, HasToken(token), |links|);
    var after := AfterVerify(sent, token, later);
    var marked := link.(verified := true);
    assert after == links + [marked];
    NewestOfAppended(links, marked);
  }
}
