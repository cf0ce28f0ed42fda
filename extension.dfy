/**
 * The per-tab authentication state of the extension: the `statuses` table
 * (tab id to the credentials, attempt count and request id of the tab's
 * current authentication exchange), the answer to an authentication
 * challenge, and the toolbar badge derived from the table.
 */
module Extension {
  import opened Wrappers
  import opened Credentials

  /** The retry ceiling: no credentials are offered once the count exceeds it. */
  const MaxTry: nat := 5

  /**
   * The fields of an `onAuthRequired` event. The handler decides on `tabId`
   * and `requestId`; `url` only describes the event, since the store's
   * lookup for it arrives as a separate argument.
   */
  datatype AuthDetails = AuthDetails(tabId: int, requestId: string, url: string)

  /** The entry `statuses` holds for one tab. */
  datatype TabStatus = TabStatus(credentials: seq<Credential>, count: nat, requestId: string)

  /** The handler's answer: `{}` (supply nothing) or `{authCredentials: {username, password}}`. */
  datatype AuthResponse = Empty | AuthCredentials(username: seq<Byte>, password: seq<Byte>)

  datatype Color = Red | Yellow | Green {
    /**
     * The CSS colour `#RRGGBB` the badge background is set to: full red for
     * red and yellow, full green for yellow and green, never any blue.
     */
    function Hex(): (h: string)
      ensures |h| == 7 && h[0] == '#'
      ensures h[1..3] == (if this == Green then "00" else "FF")
      ensures h[3..5] == (if this == Red then "00" else "FF")
      ensures h[5..] == "00"
    {
      match this
      case Red => "#FF0000"
      case Yellow => "#FFFF00"
      case Green => "#00FF00"
    }
  }

  /** What the badge is set to: cleared (text `''`), or shown (text `' '`) on a background colour. */
  datatype Badge = Clear | Show(color: Color) {
    function Text(): (t: string)
      ensures t == "" <==> Clear?
      ensures Show? ==> t == " "
    {
      if Clear? then "" else " "
    }
  }

  /**
   * `new RegExp(pattern).test(url)`. Regular-expression matching is the
   * browser's; the model takes it as a parameter.
   */
  type Matcher = (string, string) -> bool

  /** The challenge continues the exchange the tab's entry records. */
  predicate IsRepeat(statuses: map<int, TabStatus>, d: AuthDetails)
  {
    d.tabId in statuses && statuses[d.tabId].requestId == d.requestId
  }

  /**
   * The table after a challenge: the same exchange again bumps the count
   * and keeps the stored credentials; anything else starts a fresh entry
   * from the new lookup with count 0. No other tab's entry changes.
   */
  function Challenged(statuses: map<int, TabStatus>, d: AuthDetails, found: seq<Credential>): (s: map<int, TabStatus>)
    ensures s.Keys == statuses.Keys + {d.tabId}
    ensures forall t :: t in statuses && t != d.tabId ==> s[t] == statuses[t]
    ensures IsRepeat(statuses, d) ==>
      && s[d.tabId].count == statuses[d.tabId].count + 1
      && s[d.tabId].credentials == statuses[d.tabId].credentials
      && s[d.tabId].requestId == statuses[d.tabId].requestId
    ensures !IsRepeat(statuses, d) ==> s[d.tabId] == TabStatus(found, 0, d.requestId)
    ensures IsRepeat(s, d)
  {
    if IsRepeat(statuses, d) then
      statuses[d.tabId := statuses[d.tabId].(count := statuses[d.tabId].count + 1)]
    else
      statuses[d.tabId := TabStatus(found, 0, d.requestId)]
  }

  /**
   * The answer to a challenge: nothing when the fresh lookup found no
   * credential or the attempt count is past the ceiling, otherwise the first
   * credential found.
   */
  function Offer(found: seq<Credential>, count: nat): (r: AuthResponse)
    ensures r.Empty? <==> (|found| == 0 || count > MaxTry)
    ensures r.AuthCredentials? ==> r.username == found[0].username && r.password == found[0].password
  {
    if |found| == 0 || count > MaxTry then Empty
    else AuthCredentials(found[0].username, found[0].password)
  }

  /** Badge colour: red past the retry ceiling, else yellow for several candidates, else green. */
  function ColorFor(st: TabStatus): (c: Color)
    ensures c == Red <==> st.count > MaxTry
    ensures c == Yellow <==> st.count <= MaxTry && |st.credentials| > 1
    ensures c == Green <==> st.count <= MaxTry && |st.credentials| <= 1
  {
    var color := if |st.credentials| > 1 then Yellow else Green;
    if st.count > MaxTry then Red else color
  }

  /**
   * The badge for a tab showing `url`: shown only when the tab has an entry
   * with at least one credential whose pattern (the first) matches `url`.
   */
  function BadgeFor(statuses: map<int, TabStatus>, tabId: int, url: string, matches: Matcher): (b: Badge)
    ensures b.Clear? <==>
      (tabId !in statuses || |statuses[tabId].credentials| == 0 || !matches(statuses[tabId].credentials[0].url, url))
    ensures b.Show? ==> b.color == ColorFor(statuses[tabId])
  {
    if tabId in statuses && |statuses[tabId].credentials| > 0 && matches(statuses[tabId].credentials[0].url, url)
    then Show(ColorFor(statuses[tabId]))
    else Clear
  }

  /** The table after a badge update: a cleared badge drops the tab's entry, and only that. */
  function Badged(statuses: map<int, TabStatus>, tabId: int, url: string, matches: Matcher): (s: map<int, TabStatus>)
    ensures s.Keys == if BadgeFor(statuses, tabId, url, matches).Clear? then statuses.Keys - {tabId} else statuses.Keys
    ensures forall t :: t in s ==> s[t] == statuses[t]
  {
    if BadgeFor(statuses, tabId, url, matches).Clear? then statuses - {tabId} else statuses
  }

  /**
   * A run of challenges for one tab and one request id, the i-th answered
   * from the i-th lookup: the table afterwards and the answers, in order.
   */
  function Run(statuses: map<int, TabStatus>, d: AuthDetails, lookups: seq<seq<Credential>>)
    : (r: (map<int, TabStatus>, seq<AuthResponse>))
    ensures |r.1| == |lookups|
    ensures r.0.Keys == if lookups == [] then statuses.Keys else statuses.Keys + {d.tabId}
    ensures forall t :: t in statuses && t != d.tabId ==> r.0[t] == statuses[t]
    decreases |lookups|
  {
    if lookups == [] then (statuses, [])
    else
      var next := Challenged(statuses, d, lookups[0]);
      var rest := Run(next, d, lookups[1..]);
      (rest.0, [Offer(lookups[0], next[d.tabId].count)] + rest.1)
  }

  /**
   * Continuing an exchange: each challenge adds exactly one to the count
   * (it never goes down), the stored credentials and request id stay, and
   * the k-th answer is decided by the k-th lookup and the count after it.
   */
  lemma {:induction false} RunContinues(statuses: map<int, TabStatus>, d: AuthDetails, lookups: seq<seq<Credential>>)
    requires IsRepeat(statuses, d)
    ensures var r := Run(statuses, d, lookups);
      && r.0[d.tabId] == statuses[d.tabId].(count := statuses[d.tabId].count + |lookups|)
      && forall k :: 0 <= k < |lookups| ==> r.1[k] == Offer(lookups[k], statuses[d.tabId].count + k + 1)
    decreases |lookups|
  {
    if lookups != [] {
      var next := Challenged(statuses, d, lookups[0]);
      RunContinues(next, d, lookups[1..]);
      var rest := Run(next, d, lookups[1..]);
      forall k | 1 <= k < |lookups|
        ensures Run(statuses, d, lookups).1[k] == Offer(lookups[k], statuses[d.tabId].count + k + 1)
      {
        assert Run(statuses, d, lookups).1[k] == rest.1[k - 1];
        assert lookups[1..][k - 1] == lookups[k];
      }
    }
  }

  /**
   * Starting a new exchange: the entry ends up holding the FIRST lookup's
   * credentials (later lookups never refresh it), the request id, and a
   * count of one less than the number of challenges; the k-th answer is
   * decided by the k-th lookup and count k.
   */
  lemma RunFresh(statuses: map<int, TabStatus>, d: AuthDetails, lookups: seq<seq<Credential>>)
    requires !IsRepeat(statuses, d)
    requires |lookups| > 0
    ensures var r := Run(statuses, d, lookups);
      && r.0[d.tabId] == TabStatus(lookups[0], |lookups| - 1, d.requestId)
      && forall k :: 0 <= k < |lookups| ==> r.1[k] == Offer(lookups[k], k)
  {
    var next := Challenged(statuses, d, lookups[0]);
    RunContinues(next, d, lookups[1..]);
    var rest := Run(next, d, lookups[1..]);
    forall k | 1 <= k < |lookups|
      ensures Run(statuses, d, lookups).1[k] == Offer(lookups[k], k)
    {
      assert Run(statuses, d, lookups).1[k] == rest.1[k - 1];
      assert lookups[1..][k - 1] == lookups[k];
    }
  }

  /**
   * The retry ceiling: for a new exchange whose lookups all find something,
   * the first six challenges (counts 0 to 5) are answered with the first
   * credential found and every later one with nothing.
   */
  lemma RetryCeiling(statuses: map<int, TabStatus>, d: AuthDetails, lookups: seq<seq<Credential>>)
    requires !IsRepeat(statuses, d)
    requires forall k :: 0 <= k < |lookups| ==> |lookups[k]| > 0
    ensures forall k :: 0 <= k < |lookups| ==>
      (Run(statuses, d, lookups).1[k].AuthCredentials? <==> k <= MaxTry)
    ensures forall k :: 0 <= k < |lookups| && k <= MaxTry ==>
      Run(statuses, d, lookups).1[k] == AuthCredentials(lookups[k][0].username, lookups[k][0].password)
  {
    if |lookups| > 0 {
      RunFresh(statuses, d, lookups);
    }
  }

  /**
   * The badge through a new exchange with one matching credential: green
   * while the attempts are within the ceiling, red from the seventh
   * challenge on. The table keeps the other tabs' entries unchanged.
   */
  lemma BadgeThroughRun(statuses: map<int, TabStatus>, d: AuthDetails, lookups: seq<seq<Credential>>,
                        url: string, matches: Matcher)
    requires !IsRepeat(statuses, d)
    requires |lookups| > 0 && |lookups[0]| == 1
    requires matches(lookups[0][0].url, url)
    ensures BadgeFor(Run(statuses, d, lookups).0, d.tabId, url, matches)
         == Show(if |lookups| > MaxTry + 1 then Red else Green)
  {
    RunFresh(statuses, d, lookups);
  }

  /**
   * A challenge for which the store finds nothing is declined, and the next
   * badge update for that tab clears the badge and drops the new entry.
   */
  lemma NothingFound(statuses: map<int, TabStatus>, d: AuthDetails, url: string, matches: Matcher)
    requires !IsRepeat(statuses, d)
    ensures Offer([], Challenged(statuses, d, [])[d.tabId].count) == Empty
    ensures BadgeFor(Challenged(statuses, d, []), d.tabId, url, matches) == Clear
    ensures Badged(Challenged(statuses, d, []), d.tabId, url, matches) == statuses - {d.tabId}
  {
  }

  /**
   * A challenge that repeats the tab's exchange and finds nothing is
   * declined, yet the badge keeps showing: the entry still holds the
   * credentials the exchange started with, and a badge update keeps it.
   */
  lemma RepeatNothingFound(statuses: map<int, TabStatus>, d: AuthDetails, url: string, matches: Matcher)
    requires IsRepeat(statuses, d)
    requires |statuses[d.tabId].credentials| > 0
    requires matches(statuses[d.tabId].credentials[0].url, url)
    ensures Offer([], Challenged(statuses, d, [])[d.tabId].count) == Empty
    ensures BadgeFor(Challenged(statuses, d, []), d.tabId, url, matches).Show?
    ensures Badged(Challenged(statuses, d, []), d.tabId, url, matches) == Challenged(statuses, d, [])
  {
  }

  /**
   * The table remembers the last request id of each tab: after a challenge,
   * another one on the same tab continues the exchange exactly when it has
   * the same request id, whatever the lookup found.
   */
  lemma RepeatAfterChallenge(statuses: map<int, TabStatus>, d: AuthDetails, found: seq<Credential>, e: AuthDetails)
    requires e.tabId == d.tabId
    ensures IsRepeat(Challenged(statuses, d, found), e) <==> e.requestId == d.requestId
  {
  }

  /** The table the extension keeps for the lifetime of its process. */
  class Tracker {
    var statuses: map<int, TabStatus>

    constructor ()
      ensures statuses == map[]
    {
      statuses := map[];
    }

    /**
     * The blocking `onAuthRequired` handler. `found` is what the credential
     * store returns for the request.
     */
    method RetrieveCredentials(d: AuthDetails, found: seq<Credential>) returns (response: AuthResponse)
      modifies this
      ensures statuses == Challenged(old(statuses), d, found)
      ensures response == Offer(found, statuses[d.tabId].count)
    {
      if d.tabId in statuses && statuses[d.tabId].requestId == d.requestId {
        var st := statuses[d.tabId];
        statuses := statuses[d.tabId := st.(count := st.count + 1)];
      } else {
        statuses := statuses[d.tabId := TabStatus(found, 0, d.requestId)];
      }
      if |found| == 0 || statuses[d.tabId].count > MaxTry {
        response := Empty;
      } else {
        response := AuthCredentials(found[0].username, found[0].password);
      }
    }

    /** Sets the badge for a tab showing `url`, dropping the tab's entry when the badge is cleared. */
    method ShowBadge(tabId: int, url: string, matches: Matcher) returns (badge: Badge)
      modifies this
      ensures badge == BadgeFor(old(statuses), tabId, url, matches)
      ensures statuses == Badged(old(statuses), tabId, url, matches)
    {
      var applies := tabId in statuses && |statuses[tabId].credentials| > 0;
      if applies && matches(statuses[tabId].credentials[0].url, url) {
        badge := Show(ColorFor(statuses[tabId]));
      } else {
        badge := Clear;
        statuses := statuses - {tabId};
      }
    }
  }
}
