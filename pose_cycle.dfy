/**
 * The pose-cycle state machine of the stretching watch app, as pure values.
 *
 * The app keeps an `unsigned char` index into a fixed catalog of poses, a
 * run/pause flag, a one-way "title page" flag and a seconds counter that is
 * compared against a fixed interval of 60. Button presses move the index
 * backward or forward (with wrap-around); a once-per-second tick advances the
 * counter and, when it reaches the interval, moves to the next pose and asks
 * for a short vibration. The display is modelled abstractly: the header as the
 * 1-based pose number and the pose name, the description as the pose's
 * description, the footer as "N seconds left" or "Paused".
 *
 * The class in module Stretchy updates these fields in place; every one of its
 * handlers is specified by the function of the same purpose here.
 */
module PoseCycle {

  /** The C `unsigned char` that holds the current pose index. */
  type Byte = x: int | 0 <= x < 256

  /** Value of the index before the first navigation. */
  const Sentinel: Byte := 255

  /** Seconds a pose stays on screen while the timer runs. */
  const Interval: int := 60

  /** Text shown in the description area before the first navigation. */
  const TitleText: string :=
    "Press select to start the timer, or press either the forward or back buttons to select a pose."

  /** One entry of the pose catalog. */
  datatype Pose = Pose(fullname: string, description: string)

  /** Contents of the header area: nothing yet, or "<number>: <fullname>". */
  datatype HeaderText = NoHeader | PoseHeader(number: int, fullname: string)

  /** Contents of the footer area: nothing yet, "<seconds> seconds left", or "Paused". */
  datatype FooterText = NoFooter | SecondsLeft(seconds: int) | Paused

  /** The three buttons and the clock tick, as delivered by the host. */
  datatype Event = Select | Up | Down | Second

  /** The controller's globals and the texts it last put on the display. */
  datatype State = State(
    pose: Byte,
    start: bool,
    titlePage: bool,
    lastChange: int,
    header: HeaderText,
    description: string,
    footer: FooterText,
    pulses: nat)

  /** The catalog is non-empty and 255 is never one of its indices. */
  predicate CatalogOk(poses: seq<Pose>)
  {
    1 <= |poses| <= 255
  }

  /** `current_pose++` on an unsigned char: 255 wraps to 0. */
  function ByteIncrement(b: Byte): (r: Byte)
    ensures b < Sentinel ==> r == b + 1
    ensures b == Sentinel ==> r == 0
  {
    (b + 1) % 256
  }

  /** The increment branch of change_pose: step up, then reset anything out of range to 0. */
  function Next(p: Byte, n: int): (r: Byte)
    requires 1 <= n <= 255
    ensures r < n
    ensures p < n - 1 ==> r == p + 1
    ensures p == n - 1 || p == Sentinel ==> r == 0
  {
    var q := ByteIncrement(p);
    if q >= n then 0 else q
  }

  /** The decrement branch of change_pose: 0 and the sentinel both go to the last pose. */
  function Previous(p: Byte, n: int): (r: Byte)
    requires 1 <= n <= 255
    ensures p < n || p == Sentinel ==> r < n
    ensures 0 < p < n ==> r == p - 1
    ensures p == 0 || p == Sentinel ==> r == n - 1
  {
    if p == 0 || p == Sentinel then n - 1 else p - 1
  }

  /** What the display and the index must agree on; the counter may be anywhere. */
  predicate Consistent(s: State, poses: seq<Pose>)
  {
    && CatalogOk(poses)
    && (s.titlePage ==>
          s.pose == Sentinel && s.header == NoHeader && s.description == TitleText)
    && (!s.titlePage ==>
          && s.pose < |poses|
          && s.header == PoseHeader(s.pose + 1, poses[s.pose].fullname)
          && s.description == poses[s.pose].description)
    && (s.footer.SecondsLeft? ==> 1 <= s.footer.seconds <= Interval)
  }

  /** What holds between two handlers: the above, and the counter is short of the interval. */
  predicate Valid(s: State, poses: seq<Pose>)
  {
    Consistent(s, poses) && 0 <= s.lastChange < Interval
  }

  /** The state at start-up: title page, paused, counter 0, index at the sentinel. */
  function Initial(poses: seq<Pose>): (s: State)
    requires CatalogOk(poses)
    ensures Valid(s, poses)
    ensures s.titlePage && !s.start && s.lastChange == 0 && s.pose == Sentinel
    ensures s.footer == NoFooter && s.pulses == 0
  {
    State(Sentinel, false, true, 0, NoHeader, TitleText, NoFooter, 0)
  }

  /** change_pose: leave the title page, move the index, reset the counter, refresh header and description. */
  function ChangePose(s: State, poses: seq<Pose>, increment: bool): (r: State)
    requires Consistent(s, poses)
    ensures Valid(r, poses)
    ensures r.pose < |poses| && r.lastChange == 0 && !r.titlePage
    ensures r.pose == if increment then Next(s.pose, |poses|) else Previous(s.pose, |poses|)
    ensures r.start == s.start && r.footer == s.footer && r.pulses == s.pulses
  {
    var p := if increment then Next(s.pose, |poses|) else Previous(s.pose, |poses|);
    s.(pose := p, titlePage := false, lastChange := 0,
       header := PoseHeader(p + 1, poses[p].fullname),
       description := poses[p].description)
  }

  /** select_click_handler: flip the run flag and nothing else. */
  function ToggleRun(s: State): (r: State)
    ensures r.start == !s.start
    ensures r.pose == s.pose && r.lastChange == s.lastChange && r.titlePage == s.titlePage
    ensures r.header == s.header && r.description == s.description
    ensures r.footer == s.footer && r.pulses == s.pulses
  {
    s.(start := !s.start)
  }

  /** tick_handler: count a second while running (advancing and vibrating at the interval), then set the footer. */
  function OnTick(s: State, poses: seq<Pose>): (r: State)
    requires Valid(s, poses)
    ensures Valid(r, poses)
    ensures r.start == s.start
    ensures r.titlePage ==> s.titlePage
    ensures !s.start ==>
              r == s.(footer := Paused)
    ensures s.start && s.lastChange + 1 < Interval ==>
              r == s.(lastChange := s.lastChange + 1,
                       footer := SecondsLeft(Interval - (s.lastChange + 1)))
    ensures s.start && s.lastChange + 1 == Interval ==>
              && r.pose == Next(s.pose, |poses|)
              && r.lastChange == 0
              && !r.titlePage
              && r.pulses == s.pulses + 1
              && r.footer == SecondsLeft(Interval)
  {
    if s.start then
      var counted := s.(lastChange := s.lastChange + 1);
      var moved := if counted.lastChange >= Interval
                   then var c := ChangePose(counted, poses, true);
                        c.(pulses := c.pulses + 1)
                   else counted;
      moved.(footer := SecondsLeft(Interval - moved.lastChange))
    else
      s.(footer := Paused)
  }

  /** One handler invocation. The up button goes to the previous pose and the down button to the next one. */
  function Step(s: State, poses: seq<Pose>, e: Event): (r: State)
    requires Valid(s, poses)
    ensures Valid(r, poses)
    ensures r.titlePage ==> s.titlePage
    ensures e == Up ==> r.pose == Previous(s.pose, |poses|)
    ensures e == Down ==> r.pose == Next(s.pose, |poses|)
    ensures e == Select ==> r == ToggleRun(s)
    ensures e == Up || e == Down ==> !r.titlePage && r.lastChange == 0
    ensures e != Second ==> r.pulses == s.pulses
    ensures e != Select ==> r.start == s.start
  {
    match e
    case Select => ToggleRun(s)
    case Up => ChangePose(s, poses, false)
    case Down => ChangePose(s, poses, true)
    case Second => OnTick(s, poses)
  }

  /** A sequence of handler invocations, in the order the host delivers them. */
  function Run(s: State, poses: seq<Pose>, es: seq<Event>): (r: State)
    requires Valid(s, poses)
    ensures Valid(r, poses)
    ensures r.titlePage ==> s.titlePage
    ensures r.pulses >= s.pulses
    decreases |es|
  {
    if es == [] then s else Run(Step(s, poses, es[0]), poses, es[1..])
  }

  /** `k` consecutive ticks. */
  function Ticks(s: State, poses: seq<Pose>, k: nat): (r: State)
    requires Valid(s, poses)
    ensures Valid(r, poses)
    ensures r.start == s.start
  {
    if k == 0 then s else OnTick(Ticks(s, poses, k - 1), poses)
  }

  /** `k` consecutive moves to the next pose, from index `p`. */
  function Nexts(p: Byte, n: int, k: nat): (r: Byte)
    requires 1 <= n <= 255
  {
    if k == 0 then p else Next(Nexts(p, n, k - 1), n)
  }

  /** `k` consecutive moves to the previous pose, from index `p`. */
  function Prevs(p: Byte, n: int, k: nat): (r: Byte)
    requires 1 <= n <= 255
  {
    if k == 0 then p else Previous(Prevs(p, n, k - 1), n)
  }

  // ---------------------------------------------------------------------------
  // Arithmetic helpers

  /** The remainder is determined by any decomposition x == q*n + r with 0 <= r < n. */
  lemma ModUnique(x: int, n: int, q: int, r: int)
    requires n > 0 && 0 <= r < n && x == q * n + r
    ensures x % n == r
  {
    var q', r' := x / n, x % n;
    assert x == q' * n + r';
    if q' < q {
      assert (q - q') * n >= n by { MulAtLeast(q - q', n); }
    } else if q' > q {
      assert (q' - q) * n >= n by { MulAtLeast(q' - q, n); }
    }
    assert q == q';
  }

  lemma MulAtLeast(a: int, n: int)
    requires a >= 1 && n > 0
    ensures a * n >= n
  {
  }

  // ---------------------------------------------------------------------------
  // Index properties

  /** From any valid index, next then previous is the identity, and so is previous then next. */
  lemma NextPreviousInverse(i: Byte, n: int)
    requires 1 <= n <= 255 && i < n
    ensures Previous(Next(i, n), n) == i
    ensures Next(Previous(i, n), n) == i
  {
  }

  /** One move to the next pose from the remainder of x is the remainder of x + 1. */
  lemma NextOfRemainder(x: int, n: int)
    requires 1 <= n <= 255
    ensures Next(x % n, n) == (x + 1) % n
  {
    var r, q := x % n, x / n;
    assert x == q * n + r;
    if r + 1 < n {
      ModUnique(x + 1, n, q, r + 1);
    } else {
      assert x + 1 == (q + 1) * n;
      ModUnique(x + 1, n, q + 1, 0);
    }
  }

  /** One move to the previous pose from the remainder of x is the remainder of x - 1. */
  lemma PreviousOfRemainder(x: int, n: int)
    requires 1 <= n <= 255
    ensures Previous(x % n, n) == (x - 1) % n
  {
    var r, q := x % n, x / n;
    assert x == q * n + r;
    if r >= 1 {
      ModUnique(x - 1, n, q, r - 1);
    } else {
      assert x - 1 == (q - 1) * n + (n - 1);
      ModUnique(x - 1, n, q - 1, n - 1);
    }
  }

  /** `k` moves to the next pose from a valid index land on (i + k) mod n. */
  lemma {:induction false} NextsFromIndex(i: Byte, n: int, k: nat)
    requires 1 <= n <= 255 && i < n
    ensures Nexts(i, n, k) == (i + k) % n
  {
    if k == 0 {
      ModUnique(i, n, 0, i);
    } else {
      NextsFromIndex(i, n, k - 1);
      NextOfRemainder(i + k - 1, n);
    }
  }

  /** `k` moves to the previous pose from a valid index land on (i - k) mod n. */
  lemma {:induction false} PrevsFromIndex(i: Byte, n: int, k: nat)
    requires 1 <= n <= 255 && i < n
    ensures Prevs(i, n, k) == (i - k) % n
  {
    if k == 0 {
      ModUnique(i, n, 0, i);
    } else {
      PrevsFromIndex(i, n, k - 1);
      PreviousOfRemainder(i - (k - 1), n);
    }
  }

  /** n moves to the next pose, or n moves to the previous one, return to the starting index. */
  lemma FullCycleReturns(i: Byte, n: int)
    requires 1 <= n <= 255 && i < n
    ensures Nexts(i, n, n) == i
    ensures Prevs(i, n, n) == i
  {
    NextsFromIndex(i, n, n);
    ModUnique(i + n, n, 1, i);
    PrevsFromIndex(i, n, n);
    ModUnique(i - n, n, -1, i);
  }

  /** Adding a positive amount smaller than n always changes the remainder. */
  lemma ShiftChangesRemainder(x: int, d: int, n: int)
    requires 0 < d < n
    ensures x % n != (x + d) % n
  {
    var r, q := x % n, x / n;
    assert x == q * n + r;
    if r + d < n {
      ModUnique(x + d, n, q, r + d);
    } else {
      assert x + d == (q + 1) * n + (r + d - n);
      ModUnique(x + d, n, q + 1, r + d - n);
    }
  }

  /** The first n moves to the next pose visit n different indices. */
  lemma NextsDistinct(i: Byte, n: int, k1: nat, k2: nat)
    requires 1 <= n <= 255 && i < n
    requires k1 < k2 < n
    ensures Nexts(i, n, k1) != Nexts(i, n, k2)
  {
    NextsFromIndex(i, n, k1);
    NextsFromIndex(i, n, k2);
    ShiftChangesRemainder(i + k1, k2 - k1, n);
  }

  /** Every valid index is reached within the first n moves to the next pose. */
  lemma NextsReachAll(i: Byte, n: int, j: Byte)
    requires 1 <= n <= 255 && i < n && j < n
    ensures exists k: nat :: k < n && Nexts(i, n, k) == j
  {
    var k := (j - i) % n;
    var q := (j - i) / n;
    assert j - i == q * n + k;
    assert i + k == (-q) * n + j;
    ModUnique(i + k, n, -q, j);
    NextsFromIndex(i, n, k);
  }

  /** From the sentinel, the first move to the next pose shows the first pose. */
  lemma FirstNextShowsFirst(poses: seq<Pose>)
    requires CatalogOk(poses)
    ensures Step(Initial(poses), poses, Down).pose == 0
    ensures Step(Initial(poses), poses, Down).header == PoseHeader(1, poses[0].fullname)
  {
  }

  /** From the sentinel, the first move to the previous pose shows the last pose. */
  lemma FirstPreviousShowsLast(poses: seq<Pose>)
    requires CatalogOk(poses)
    ensures Step(Initial(poses), poses, Up).pose == |poses| - 1
    ensures Step(Initial(poses), poses, Up).header == PoseHeader(|poses|, poses[|poses| - 1].fullname)
  {
  }

  // ---------------------------------------------------------------------------
  // Title page

  /** Once the title page is gone it never comes back. */
  lemma TitleNeverReturns(s: State, poses: seq<Pose>, es: seq<Event>)
    requires Valid(s, poses) && !s.titlePage
    ensures !Run(s, poses, es).titlePage
  {
  }

  /** Any button that moves the pose clears the title page for good. */
  lemma {:induction false} NavigationClearsTitle(s: State, poses: seq<Pose>, es: seq<Event>, i: nat)
    requires Valid(s, poses)
    requires i < |es| && (es[i] == Up || es[i] == Down)
    ensures !Run(s, poses, es).titlePage
    decreases |es|
  {
    var t := Step(s, poses, es[0]);
    if i == 0 {
      assert !t.titlePage;
      TitleNeverReturns(t, poses, es[1..]);
    } else {
      NavigationClearsTitle(t, poses, es[1..], i - 1);
    }
  }

  /** Only the tick handler ever asks for a vibration. */
  lemma {:induction false} ButtonsNeverVibrate(s: State, poses: seq<Pose>, es: seq<Event>)
    requires Valid(s, poses)
    requires forall i :: 0 <= i < |es| ==> es[i] != Second
    ensures Run(s, poses, es).pulses == s.pulses
    decreases |es|
  {
    if es != [] {
      ButtonsNeverVibrate(Step(s, poses, es[0]), poses, es[1..]);
    }
  }

  // ---------------------------------------------------------------------------
  // Timer

  /** Ticks while paused change neither the index nor the counter, and leave "Paused" in the footer. */
  lemma {:induction false} PausedTicks(s: State, poses: seq<Pose>, k: nat)
    requires Valid(s, poses) && !s.start
    ensures var r := Ticks(s, poses, k);
      && r.pose == s.pose && r.lastChange == s.lastChange && r.titlePage == s.titlePage
      && r.pulses == s.pulses
      && (k > 0 ==> r.footer == Paused)
  {
    if k > 0 {
      PausedTicks(s, poses, k - 1);
    }
  }

  /** Ticks while running that stay short of the interval only count, and show the seconds left. */
  lemma {:induction false} RunningTicks(s: State, poses: seq<Pose>, k: nat)
    requires Valid(s, poses) && s.start
    requires s.lastChange + k < Interval
    ensures var r := Ticks(s, poses, k);
      && r.pose == s.pose && r.lastChange == s.lastChange + k && r.titlePage == s.titlePage
      && r.pulses == s.pulses
      && (k > 0 ==> r.footer == SecondsLeft(Interval - s.lastChange - k))
  {
    if k > 0 {
      RunningTicks(s, poses, k - 1);
    }
  }

  /**
   * Starting the timer on a fresh counter: after 59 ticks one second is left
   * and the pose is unchanged; the 60th tick moves to the next pose, vibrates
   * once and shows the full interval again.
   */
  lemma FullInterval(s: State, poses: seq<Pose>)
    requires Valid(s, poses) && s.start && s.lastChange == 0
    ensures Ticks(s, poses, Interval - 1).footer == SecondsLeft(1)
    ensures Ticks(s, poses, Interval - 1).pose == s.pose
    ensures Ticks(s, poses, Interval).pose == Next(s.pose, |poses|)
    ensures Ticks(s, poses, Interval).lastChange == 0
    ensures Ticks(s, poses, Interval).pulses == s.pulses + 1
    ensures Ticks(s, poses, Interval).footer == SecondsLeft(Interval)
  {
    RunningTicks(s, poses, Interval - 1);
  }

  // ---------------------------------------------------------------------------
  // Worked scenarios

  /** Three poses: next shows "1: A", next again "2: B", previous returns to the first. */
  lemma ThreePoseWalk(da: string, db: string, dc: string)
    ensures var poses := [Pose("A", da), Pose("B", db), Pose("C", dc)];
      var s1 := Step(Initial(poses), poses, Down);
      var s2 := Step(s1, poses, Down);
      var s3 := Step(s2, poses, Up);
      && s1.pose == 0 && s1.header == PoseHeader(1, "A")
      && s2.pose == 1 && s2.header == PoseHeader(2, "B")
      && s3.pose == 0 && s3.header == PoseHeader(1, "A")
  {
  }

  /** Start then stop the timer, then a tick: the footer reads "Paused" and nothing else moved. */
  lemma ToggleTwiceThenTick(poses: seq<Pose>)
    requires CatalogOk(poses)
    ensures var s := Initial(poses);
      var r := Run(s, poses, [Select, Select, Second]);
      && r.footer == Paused && !r.start
      && r.pose == s.pose && r.lastChange == s.lastChange && r.titlePage
  {
  }
}
