/** The fetcher's rate controller and its reverse scan of a download folder.

    The controller's clock, its random draws and its sleeps are not modelled
    as effects: the hour, the recorded request time and the redrawn pause
    threshold are parameters, and a sleep leaves no trace in the state. What
    remains is the bookkeeping: the error counters, the post counter that
    triggers a long pause, and the five bounded deques of request times. */
module Fetcher {
  import opened Wrappers
  import opened Text
  import opened Priority
  import opened StableSort
  import opened Scanner

  // ---------------------------------------------------------------------------
  // Time-of-day request limits
  // ---------------------------------------------------------------------------

  /** The periods `_get_time_based_rate_control` distinguishes. */
  datatype Period = Sleep | EarlyMorning | Morning | MidDay | Evening | LateNight {
    /** The (minimum, maximum) requests per minute of the period. */
    function Limits(): (int, int) {
      match this
      case Sleep => (0, 0)
      case EarlyMorning => (5, 10)
      case Morning => (10, 50)
      case MidDay => (10, 50)
      case Evening => (30, 100)
      case LateNight => (20, 80)
    }
  }

  /** The period of an hour of the day: `[0,5)` sleep, `[5,8)` early morning,
      `[9,12)` morning, `[13,18)` mid-day, `[18,22)` evening, and every other
      hour late night. The hours 8 and 12 lie in no named range and fall
      through to late night. */
  function RateControl(hour: nat): (r: (Period, int, int))
    requires hour < 24
    ensures (r.1, r.2) == r.0.Limits()
    ensures 0 <= r.1 <= r.2
    ensures r.0 == Sleep <==> hour < 5
    ensures r.0 == EarlyMorning <==> 5 <= hour < 8
    ensures r.0 == Morning <==> 9 <= hour < 12
    ensures r.0 == MidDay <==> 13 <= hour < 18
    ensures r.0 == Evening <==> 18 <= hour < 22
    ensures r.0 == LateNight <==> hour == 8 || hour == 12 || hour >= 22
    ensures r.2 > 0 <==> hour >= 5
  {
    var p :=
      if hour < 5 then Sleep
      else if 5 <= hour < 8 then EarlyMorning
      else if 9 <= hour < 12 then Morning
      else if 13 <= hour < 18 then MidDay
      else if 18 <= hour < 22 then Evening
      else LateNight;
    (p, p.Limits().0, p.Limits().1)
  }

  /** Outside the sleep hours the per-minute maximum is positive, so the
      minimum interval `60 / max` between requests is defined; in the sleep
      hours the controller waits and retries before it gets there. */
  lemma IntervalDefinedAwake(hour: nat)
    requires hour < 24 && RateControl(hour).0 != Sleep
    ensures RateControl(hour).2 >= 10 || RateControl(hour).0 == EarlyMorning
    ensures RateControl(hour).2 > 0
  {
  }

  // ---------------------------------------------------------------------------
  // Bounded deques of request times
  // ---------------------------------------------------------------------------

  const MinuteMax := 30
  const HourMax := 100
  const DayMax := 100
  const WeekMax := 50
  const MonthMax := 100
  const SecondsInDay := 86400

  /** `deque.append` on a deque with `maxlen`: the deque keeps the newest
      `maxlen` entries, so the oldest ones drop out when it is full. */
  function Push(d: seq<int>, x: int, maxlen: nat): (r: seq<int>)
    requires maxlen > 0
    ensures |r| == if |d| < maxlen then |d| + 1 else maxlen
    ensures r[|r| - 1] == x
    ensures forall i :: 0 <= i < |r| - 1 ==> r[i] == d[|d| - (|r| - 1) + i]
    ensures |d| < maxlen ==> r == d + [x]
    ensures |d| == maxlen ==> r[..|r| - 1] == d[1..]
  {
    if |d| >= maxlen then d[|d| - maxlen + 1..] + [x] else d + [x]
  }

  /** `popleft` while the oldest entry is more than a day before `now`. */
  function DropOlderThanDay(d: seq<int>, now: int): (r: seq<int>)
    ensures |r| <= |d| && r == d[|d| - |r|..]
    ensures r == [] || now - r[0] <= SecondsInDay
    ensures forall i :: 0 <= i < |d| - |r| ==> now - d[i] > SecondsInDay
    decreases |d|
  {
    if |d| > 0 && now - d[0] > SecondsInDay then
      var r := DropOlderThanDay(d[1..], now);
      assert r == d[|d| - |r|..];
      forall i | 0 < i < |d| - |r|
        ensures now - d[i] > SecondsInDay
      {
        assert d[i] == d[1..][i - 1];
      }
      r
    else
      assert d == d[0..];
      d
  }

  // ---------------------------------------------------------------------------
  // The controller's state
  // ---------------------------------------------------------------------------

  datatype RateState = RateState(
    errors429: nat, errors403: nat, errors500: nat,
    postsSincePause: nat, postsUntilNextPause: nat,
    dailyLimit: nat,
    minute: seq<int>, hourly: seq<int>, daily: seq<int>, weekly: seq<int>, monthly: seq<int>,
    lastRequest: int)

  /** What holds between calls: the post counter is below its threshold, the
      threshold and the daily limit lie in the ranges they are drawn from, and
      no deque exceeds its maximum length. */
  predicate Valid(s: RateState) {
    && s.postsSincePause < s.postsUntilNextPause
    && 10 <= s.postsUntilNextPause <= 50
    && 100 <= s.dailyLimit <= 200
    && |s.minute| <= MinuteMax && |s.hourly| <= HourMax && |s.daily| <= DayMax
    && |s.weekly| <= WeekMax && |s.monthly| <= MonthMax
  }

  /** The state `__init__` leaves, given its two random draws. */
  function Init(pauseDraw: nat, limitDraw: nat): (s: RateState)
    requires 10 <= pauseDraw <= 50 && 100 <= limitDraw <= 200
    ensures Valid(s)
    ensures s.errors429 == s.errors403 == s.errors500 == 0 && s.postsSincePause == 0
  {
    RateState(0, 0, 0, 0, pauseDraw, limitDraw, [], [], [], [], [], 0)
  }

  /** The query types that count as a post towards a long pause. */
  predicate CountsAsPost(queryType: string) {
    queryType in ["get_feed_posts", "get_profile", "get_post_page", "get_igtv_page"]
  }

  /** The daily check empties the deque of entries older than a day only once
      the deque holds `dailyLimit` entries. */
  function DailyCleanup(s: RateState, now: int): (r: seq<int>)
    ensures |r| <= |s.daily|
    ensures |s.daily| < s.dailyLimit ==> r == s.daily
  {
    if |s.daily| >= s.dailyLimit then DropOlderThanDay(s.daily, now) else s.daily
  }

  /** The daily deque holds at most 100 entries while the limit is drawn from
      100 to 200, so the daily check can fire only with a limit of exactly 100. */
  lemma DailyCheckNeedsHundred(s: RateState)
    requires Valid(s) && |s.daily| >= s.dailyLimit
    ensures s.dailyLimit == 100 && |s.daily| == 100
  {
  }

  /** The newest entry of the deque is `t`. */
  predicate Recorded(d: seq<int>, t: int) {
    |d| > 0 && d[|d| - 1] == t
  }

  /** `wait_before_query`, past its sleeps: the error counters reset, a post
      advances the pause counter (restarting it with the redrawn threshold
      `pauseDraw` once it reaches the old one), and the request time is
      pushed onto every deque. */
  function WaitBeforeQuery(s: RateState, queryType: string, now: int, recordTime: int, pauseDraw: nat): (r: RateState)
    requires 10 <= pauseDraw <= 50
    ensures r.errors429 == r.errors403 == r.errors500 == 0
    ensures r.dailyLimit == s.dailyLimit && r.lastRequest == recordTime
    ensures !CountsAsPost(queryType) ==>
      r.postsSincePause == s.postsSincePause && r.postsUntilNextPause == s.postsUntilNextPause
    ensures CountsAsPost(queryType) && s.postsSincePause + 1 < s.postsUntilNextPause ==>
      r.postsSincePause == s.postsSincePause + 1 && r.postsUntilNextPause == s.postsUntilNextPause
    ensures CountsAsPost(queryType) && s.postsSincePause + 1 >= s.postsUntilNextPause ==>
      r.postsSincePause == 0 && r.postsUntilNextPause == pauseDraw
    ensures Recorded(r.minute, recordTime) && Recorded(r.hourly, recordTime) && Recorded(r.daily, recordTime)
    ensures Recorded(r.weekly, recordTime) && Recorded(r.monthly, recordTime)
    ensures Valid(s) ==> Valid(r)
  {
    var (posts, until) :=
      if !CountsAsPost(queryType) then (s.postsSincePause, s.postsUntilNextPause)
      else if s.postsSincePause + 1 >= s.postsUntilNextPause then (0, pauseDraw)
      else (s.postsSincePause + 1, s.postsUntilNextPause);
    var daily := DailyCleanup(s, now);
    RateState(0, 0, 0, posts, until, s.dailyLimit,
              Push(s.minute, recordTime, MinuteMax), Push(s.hourly, recordTime, HourMax),
              Push(daily, recordTime, DayMax), Push(s.weekly, recordTime, WeekMax),
              Push(s.monthly, recordTime, MonthMax), recordTime)
  }

  /** The responses the controller reacts to. */
  datatype Response = Ok200 | Bad400 | Unauthorized401 | Forbidden403 | NotFound404
                    | TooMany429 | ServerError500 | SoftBlock

  /** The `handle_*` methods' effect on the counters; their sleeps are left
      out. */
  function Handle(s: RateState, resp: Response): (r: RateState)
    ensures r.postsSincePause == s.postsSincePause && r.postsUntilNextPause == s.postsUntilNextPause
    ensures r.dailyLimit == s.dailyLimit && r.lastRequest == s.lastRequest
    ensures r.minute == s.minute && r.hourly == s.hourly && r.daily == s.daily
    ensures r.weekly == s.weekly && r.monthly == s.monthly
    ensures Valid(s) ==> Valid(r)
  {
    match resp
    case Ok200 => s.(errors429 := 0, errors403 := 0, errors500 := 0)
    case Forbidden403 => s.(errors403 := s.errors403 + 1)
    case SoftBlock => s.(errors403 := s.errors403 + 1)
    case TooMany429 => s.(errors429 := s.errors429 + 1)
    case ServerError500 => s.(errors500 := s.errors500 + 1)
    case _ => s
  }

  /** The counter machine: success zeroes all three; 403 and soft blocks share
      one counter; 429 and 500 each have their own; 400, 401 and 404 change
      nothing. */
  lemma CounterTransitions(s: RateState, resp: Response)
    ensures var r := Handle(s, resp);
      && (resp == Ok200 ==> r.errors429 == r.errors403 == r.errors500 == 0)
      && (resp in {Forbidden403, SoftBlock} ==>
            r.errors403 == s.errors403 + 1 && r.errors429 == s.errors429 && r.errors500 == s.errors500)
      && (resp == TooMany429 ==>
            r.errors429 == s.errors429 + 1 && r.errors403 == s.errors403 && r.errors500 == s.errors500)
      && (resp == ServerError500 ==>
            r.errors500 == s.errors500 + 1 && r.errors403 == s.errors403 && r.errors429 == s.errors429)
      && (resp in {Bad400, Unauthorized401, NotFound404} ==> r == s)
  {
  }

  /** One call into the controller: a `wait_before_query` with its query
      type, its clock reading, the time it records and the pause threshold it
      would redraw, or a `handle_*` call for a response. */
  datatype Event = Query(queryType: string, now: int, recordTime: int, pauseDraw: nat) | Reply(resp: Response)

  /** The redrawn pause thresholds lie in the range `randint` draws them from. */
  predicate WellDrawn(events: seq<Event>) {
    forall i :: 0 <= i < |events| ==> events[i].Query? ==> 10 <= events[i].pauseDraw <= 50
  }

  /** The state after one event. */
  function Step(s: RateState, e: Event): (r: RateState)
    requires e.Query? ==> 10 <= e.pauseDraw <= 50
    ensures Valid(s) ==> Valid(r)
  {
    match e
    case Query(t, now, rec, draw) => WaitBeforeQuery(s, t, now, rec, draw)
    case Reply(resp) => Handle(s, resp)
  }

  /** The events in turn, in any interleaving of queries and responses. */
  function Run(s: RateState, events: seq<Event>): RateState
    requires WellDrawn(events)
    decreases |events|
  {
    if events == [] then s else Run(Step(s, events[0]), events[1..])
  }

  /** Any sequence of queries and responses from a valid state ends valid. */
  lemma {:induction false} ValidAfterRun(s: RateState, events: seq<Event>)
    requires Valid(s) && WellDrawn(events)
    ensures Valid(Run(s, events))
    decreases |events|
  {
    if events != [] {
      ValidAfterRun(Step(s, events[0]), events[1..]);
    }
  }

  // ---------------------------------------------------------------------------
  // The reverse scan of a download folder
  // ---------------------------------------------------------------------------

  /** The nested `_get_priority` as a sort key. */
  function FetcherKey(c: Candidate): int {
    FetcherPriority(c.filename)
  }

  /** The media files of one walked root, in listing order; the reverse scan
      excludes no names and prunes no directories. */
  function RootMedia(root: string, files: seq<string>, cwd: string): (r: seq<Candidate>)
    ensures |r| <= |files|
    ensures forall c :: c in r <==> c.filename in files && c.path == Join(root, c.filename) && ScanMedia(c.path, cwd)
  {
    if |files| == 0 then []
    else
      var f := files[|files| - 1];
      var c := Candidate(Join(root, f), f);
      var rest := RootMedia(root, files[..|files| - 1], cwd);
      assert forall g :: g in files <==> g in files[..|files| - 1] || g == f;
      if ScanMedia(c.path, cwd) then rest + [c] else rest
  }

  /** `all_files` of `reverse_scan`: every media file of the walk. */
  function ReverseCollect(walk: seq<ScanStep>, cwd: string): (r: seq<Candidate>)
    ensures forall c :: c in r <==>
      exists k :: 0 <= k < |walk| && c.filename in walk[k].files && c.path == Join(walk[k].root, c.filename) && ScanMedia(c.path, cwd)
  {
    if |walk| == 0 then []
    else
      var step := walk[|walk| - 1];
      assert forall k :: 0 <= k < |walk| - 1 ==> walk[..|walk| - 1][k] == walk[k];
      ReverseCollect(walk[..|walk| - 1], cwd) + RootMedia(step.root, step.files, cwd)
  }

  /** The order `reverse_scan` loads files in. */
  function ReverseOrder(walk: seq<ScanStep>, cwd: string): (r: seq<Candidate>)
    ensures Sorted(r, FetcherKey)
    ensures multiset(r) == multiset(ReverseCollect(walk, cwd))
  {
    SortByKey(ReverseCollect(walk, cwd), FetcherKey)
  }

  /** Files of one fetcher priority keep their walk order. */
  lemma ReverseOrderStable(walk: seq<ScanStep>, cwd: string, k: int)
    ensures WithKey(ReverseOrder(walk, cwd), FetcherKey, k) == WithKey(ReverseCollect(walk, cwd), FetcherKey, k)
  {
    SortKeepsClasses(ReverseCollect(walk, cwd), FetcherKey, k);
  }

  /** `reverse_scan`: 0 when the requested table reset or the collection
      fails; otherwise every collected file is handed to `_insert_media`
      once, in fetcher priority order, and counted. */
  method ReverseScan(walk: seq<ScanStep>, cwd: string, resetFails: bool, collectFails: bool)
    returns (processed: int, attempted: seq<Candidate>)
    ensures resetFails || collectFails ==> processed == 0 && attempted == []
    ensures !resetFails && !collectFails ==> processed == |ReverseCollect(walk, cwd)| && attempted == ReverseOrder(walk, cwd)
    ensures !resetFails && !collectFails ==> multiset(attempted) == multiset(ReverseCollect(walk, cwd))
    ensures Sorted(attempted, FetcherKey)
  {
    if resetFails || collectFails {
      return 0, [];
    }
    var all := ReverseCollect(walk, cwd);
    var order := SortByKey(all, FetcherKey);
    processed, attempted := InsertAll(order);
  }

  // ---------------------------------------------------------------------------
  // The user agent
  // ---------------------------------------------------------------------------

  const MobileAgents: seq<string> := [
    "Mozilla/5.0 (iPhone; CPU iPhone OS 17_7 like Mac OS X) AppleWebKit/605.1.15 (KHTML, like Gecko) CriOS/134.0.6998.33 Mobile/15E148 Safari/604.1",
    "Mozilla/5.0 (iPhone; CPU iPhone OS 18_3_1 like Mac OS X) AppleWebKit/605.1.15 (KHTML, like Gecko) Version/18.3 Mobile/15E148 Safari/604.1",
    "Mozilla/5.0 (Linux; Android 10;K) AppleWebKit/537.36 (KHTML, like Gecko) Chrome/134.0.0.0 Mobile Safari/537.36"
  ]
  const DesktopAgents: seq<string> := [
    "Mozilla/5.0 (Macintosh; Intel Mac OS X 14_7_4) AppleWebKit/605.1.15 (KHTML, like Gecko) Version/18.3 Safari/605.1.15",
    "Mozilla/5.0 (Macintosh; Intel Mac OS X 10_15_7) AppleWebKit/537.36 (KHTML, like Gecko) Chrome/134.0.0.0 Safari/537.36",
    "Mozilla/5.0 (Windows NT 10.0; Win64; x64) AppleWebKit/537.36 (KHTML, like Gecko) Chrome/134.0.0.0 Safari/537.36 Edg/131.0.2903.86"
  ]

  /** The hour the choice uses: the given time's own hour when there is one,
      otherwise the current hour in the zone. */
  function ChoiceHour(zone: string, given: Option<nat>, hourIn: string -> nat): nat {
    match given
    case Some(h) => h
    case None => hourIn(zone)
  }

  /** `pick_user_agent`: the zone is looked up first, so an unknown zone fails
      even when a time is given; mobile agents from 5 to 11 o'clock, desktop
      agents from 12 to 16, mobile agents otherwise. `choice` stands for the
      random pick within the list. */
  function PickUserAgent(zone: string, knownZone: string -> bool, given: Option<nat>, hourIn: string -> nat, choice: nat)
    : (r: Result<string>)
    ensures r.Failure? <==> !knownZone(zone)
    ensures r.Failure? ==> r.error == UnknownTimeZoneError
    ensures r.Success? ==>
      var h := ChoiceHour(zone, given, hourIn);
      && (12 <= h < 17 ==> r.value in DesktopAgents)
      && (!(12 <= h < 17) ==> r.value in MobileAgents)
  {
    if !knownZone(zone) then Failure(UnknownTimeZoneError)
    else
      var h := ChoiceHour(zone, given, hourIn);
      if 5 <= h < 12 then Success(MobileAgents[choice % |MobileAgents|])
      else if 12 <= h < 17 then Success(DesktopAgents[choice % |DesktopAgents|])
      else Success(MobileAgents[choice % |MobileAgents|])
  }

  /** With a time given, the zone affects only whether the lookup succeeds,
      not the agent chosen. */
  lemma GivenTimeIgnoresZone(z1: string, z2: string, knownZone: string -> bool, h: nat,
                             hourIn: string -> nat, choice: nat)
    requires knownZone(z1) && knownZone(z2)
    ensures PickUserAgent(z1, knownZone, Some(h), hourIn, choice) == PickUserAgent(z2, knownZone, Some(h), hourIn, choice)
  {
  }

  /** No agent is both a mobile and a desktop one. */
  lemma AgentListsDisjoint()
    ensures forall a :: a in MobileAgents ==> a !in DesktopAgents
  {
  }
}
