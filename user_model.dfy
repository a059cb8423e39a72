/** Queries over the users relation, and the profile that joins items and bids. */
module UserModel {
  import opened Types
  import opened BidModel

  /** The id of the first user (in id order) satisfying `p`, or None. */
  function FirstUserWhere(users: seq<User>, p: User -> bool): (r: Option<int>)
    ensures r.None? <==> forall k :: 0 <= k < |users| ==> !p(users[k])
    ensures r.Some? ==> 1 <= r.value <= |users| && p(users[r.value - 1])
                        && forall k :: 0 <= k < r.value - 1 ==> !p(users[k])
  {
    if users == [] then None
    else if p(users[0]) then Some(1)
    else
      var r := FirstUserWhere(users[1..], p);
      assert forall k :: 1 <= k < |users| ==> users[k] == users[1..][k - 1];
      if r.Some? then Some(r.value + 1) else None
  }

  /** findByEmail: the user registered with `email`, if any. */
  function FindByEmail(t: Tables, email: string): (r: Option<int>)
    ensures r.None? <==> forall k :: 0 <= k < |t.users| ==> t.users[k].email != email
    ensures r.Some? ==> IsUserId(t, r.value) && UserOf(t, r.value).email == email
  {
    FirstUserWhere(t.users, (u: User) => u.email == email)
  }

  /** Looking a user up by e-mail does not depend on anybody's session token. */
  lemma FindByEmailIgnoresTokens(t: Tables, users: seq<User>, email: string)
    requires |users| == |t.users|
    requires forall k :: 0 <= k < |users| ==> users[k].email == t.users[k].email
    ensures FindByEmail(t.(users := users), email) == FindByEmail(t, email)
  {
  }

  /** findById: only the public columns of the user, or None when there is no such user. */
  function FindById(t: Tables, id: int): (r: Option<PublicUser>)
    ensures r.Some? <==> IsUserId(t, id)
    ensures r.Some? ==> r.value.userId == id && r.value.firstName == UserOf(t, id).firstName
                        && r.value.lastName == UserOf(t, id).lastName && r.value.email == UserOf(t, id).email
  {
    if IsUserId(t, id) then
      var u := UserOf(t, id);
      Some(PublicUser(id, u.firstName, u.lastName, u.email))
    else None
  }

  /** findBySessionToken: the first user holding `token`, or None when nobody holds it. */
  function FindBySessionToken(t: Tables, token: string): (r: Option<int>)
    ensures r.None? <==> forall k :: 0 <= k < |t.users| ==> t.users[k].sessionToken != Some(token)
    ensures r.Some? ==> IsUserId(t, r.value) && UserOf(t, r.value).sessionToken == Some(token)
  {
    FirstUserWhere(t.users, (u: User) => u.sessionToken == Some(token))
  }

  /** A token held by exactly one user resolves to that user. */
  lemma TokenResolvesToHolder(t: Tables, id: int, token: string)
    requires IsUserId(t, id) && UserOf(t, id).sessionToken == Some(token)
    requires forall k :: 0 <= k < |t.users| && k != id - 1 ==> t.users[k].sessionToken != Some(token)
    ensures FindBySessionToken(t, token) == Some(id)
  {
  }

  // ---- the profile ----

  /** An item joined with its creator's names; None when the creator is not a user. */
  function ProfileRow(t: Tables, k: nat): Option<ProfileItem>
    requires k < |t.items|
  {
    var it := t.items[k];
    if IsUserId(t, it.creatorId) then
      Some(ProfileItem(k + 1, it.name, it.description, it.endDate, it.creatorId,
                       UserOf(t, it.creatorId).firstName, UserOf(t, it.creatorId).lastName))
    else None
  }

  predicate Selling(t: Tables, k: nat, userId: int, now: int) requires k < |t.items| {
    t.items[k].creatorId == userId && t.items[k].endDate > now
  }

  predicate BiddingOn(t: Tables, k: nat, userId: int, now: int) requires k < |t.items| {
    HasBidBy(t, k + 1, userId) && t.items[k].endDate > now
  }

  predicate Ended(t: Tables, k: nat, userId: int, now: int) requires k < |t.items| {
    t.items[k].endDate <= now && (t.items[k].creatorId == userId || HasBidBy(t, k + 1, userId))
  }

  datatype Section = SellingSection | BiddingSection | EndedSection

  predicate InSection(t: Tables, s: Section, k: nat, userId: int, now: int) requires k < |t.items| {
    match s
    case SellingSection => Selling(t, k, userId, now)
    case BiddingSection => BiddingOn(t, k, userId, now)
    case EndedSection => Ended(t, k, userId, now)
  }

  /**
   * The rows of one profile section among the first `n` items, one per
   * item, in item id order.
   */
  function SectionRows(t: Tables, s: Section, userId: int, now: int, n: nat): (r: seq<ProfileItem>)
    requires n <= |t.items|
    ensures forall i :: 0 <= i < |r| ==> 1 <= r[i].itemId <= n && InSection(t, s, r[i].itemId - 1, userId, now)
                                         && ProfileRow(t, r[i].itemId - 1) == Some(r[i])
    ensures forall i, j :: 0 <= i < j < |r| ==> r[i].itemId < r[j].itemId
    ensures forall k :: 0 <= k < n && InSection(t, s, k, userId, now) && ProfileRow(t, k).Some? ==>
              ProfileRow(t, k).value in r
  {
    if n == 0 then []
    else
      var rest := SectionRows(t, s, userId, now, n - 1);
      var row := ProfileRow(t, n - 1);
      if InSection(t, s, n - 1, userId, now) && row.Some? then rest + [row.value] else rest
  }

  /**
   * getProfile: None for an unknown user; otherwise the user's names with
   * the items they sell (still open), the distinct open items they bid on,
   * and the distinct ended items they created or bid on.
   */
  function GetProfile(t: Tables, userId: int, now: int): (r: Option<Profile>)
    ensures r.None? <==> !IsUserId(t, userId)
    ensures r.Some? ==> r.value.userId == userId
                        && r.value.firstName == UserOf(t, userId).firstName
                        && r.value.lastName == UserOf(t, userId).lastName
  {
    if !IsUserId(t, userId) then None
    else
      var u := UserOf(t, userId);
      Some(Profile(userId, u.firstName, u.lastName,
                   SectionRows(t, SellingSection, userId, now, |t.items|),
                   SectionRows(t, BiddingSection, userId, now, |t.items|),
                   SectionRows(t, EndedSection, userId, now, |t.items|)))
  }

  /** The selling rows of a profile are the user's own items that are still open. */
  lemma ProfileSelling(t: Tables, userId: int, now: int)
    requires IsUserId(t, userId)
    ensures var p := GetProfile(t, userId, now).value;
            forall i :: 0 <= i < |p.selling| ==> p.selling[i].creatorId == userId && p.selling[i].endDate > now
  {
    var p := GetProfile(t, userId, now).value;
    forall i | 0 <= i < |p.selling| ensures p.selling[i].creatorId == userId && p.selling[i].endDate > now {
      assert ProfileRow(t, p.selling[i].itemId - 1) == Some(p.selling[i]);
    }
  }

  /** The bidding rows are distinct open items the user bid on. */
  lemma ProfileBidding(t: Tables, userId: int, now: int)
    requires IsUserId(t, userId)
    ensures var p := GetProfile(t, userId, now).value;
            && (forall i :: 0 <= i < |p.biddingOn| ==> HasBidBy(t, p.biddingOn[i].itemId, userId) && p.biddingOn[i].endDate > now)
            && (forall i, j :: 0 <= i < j < |p.biddingOn| ==> p.biddingOn[i].itemId != p.biddingOn[j].itemId)
  {
    var p := GetProfile(t, userId, now).value;
    forall i | 0 <= i < |p.biddingOn| ensures HasBidBy(t, p.biddingOn[i].itemId, userId) && p.biddingOn[i].endDate > now {
      assert ProfileRow(t, p.biddingOn[i].itemId - 1) == Some(p.biddingOn[i]);
    }
  }

  /** The ended rows are distinct ended items the user created or bid on. */
  lemma ProfileEnded(t: Tables, userId: int, now: int)
    requires IsUserId(t, userId)
    ensures var p := GetProfile(t, userId, now).value;
            && (forall i :: 0 <= i < |p.auctionsEnded| ==>
                  p.auctionsEnded[i].endDate <= now
                  && (p.auctionsEnded[i].creatorId == userId || HasBidBy(t, p.auctionsEnded[i].itemId, userId)))
            && (forall i, j :: 0 <= i < j < |p.auctionsEnded| ==> p.auctionsEnded[i].itemId != p.auctionsEnded[j].itemId)
  {
    var p := GetProfile(t, userId, now).value;
    forall i | 0 <= i < |p.auctionsEnded|
      ensures p.auctionsEnded[i].endDate <= now
              && (p.auctionsEnded[i].creatorId == userId || HasBidBy(t, p.auctionsEnded[i].itemId, userId))
    {
      assert ProfileRow(t, p.auctionsEnded[i].itemId - 1) == Some(p.auctionsEnded[i]);
    }
  }
}
