/**
 * The controller of the stretching watch app as the program holds it: a set
 * of variables that the button and tick handlers update in place. Each
 * handler is a method of `Controller`; its postcondition ties the new state to
 * the function of module PoseCycle that specifies it, where the properties of
 * the cycle are proved.
 */
module Stretchy {
  import opened PoseCycle

  class Controller {
    /** The pose catalog, fixed when the app is built. */
    const poses: seq<Pose>

    /** The module-level variables of the app. */
    var currentPose: Byte
    var start: bool
    var titlePage: bool
    var lastChange: int

    /** What the header, description and footer areas show. */
    var header: HeaderText
    var description: string
    var footer: FooterText

    /** Number of short vibrations requested so far. */
    var pulses: nat

    /** The variables as one value. */
    function View(): State
      reads this
    {
      State(currentPose, start, titlePage, lastChange, header, description, footer, pulses)
    }

    /** The invariant that holds between two handlers. */
    predicate Valid()
      reads this
    {
      PoseCycle.Valid(View(), poses)
    }

    /** Start-up: title page shown, timer paused, counter 0, index at the sentinel 255. */
    constructor (catalog: seq<Pose>)
      requires CatalogOk(catalog)
      ensures poses == catalog
      ensures Valid() && View() == Initial(catalog)
    {
      poses := catalog;
      currentPose := Sentinel;
      start := false;
      titlePage := true;
      lastChange := 0;
      header := NoHeader;
      description := TitleText;
      footer := NoFooter;
      pulses := 0;
    }

    /**
     * Leave the title page, move to the next pose (with unsigned-char
     * wrap-around, then a reset to 0 past the end) or to the previous one
     * (0 and the sentinel both go to the last pose), reset the counter and
     * refresh the header and description. Also called from Tick, when the
     * counter has just reached the interval.
     */
    method ChangePose(increment: bool)
      requires Consistent(View(), poses)
      modifies this
      ensures Valid()
      ensures View() == PoseCycle.ChangePose(old(View()), poses, increment)
      ensures currentPose < |poses| && lastChange == 0 && !titlePage
      ensures increment ==> currentPose == Next(old(currentPose), |poses|)
      ensures !increment ==> currentPose == Previous(old(currentPose), |poses|)
    {
      if titlePage {
        titlePage := false;
      }
      if increment {
        currentPose := (currentPose + 1) % 256;
        if currentPose >= |poses| {
          currentPose := 0;
        }
      } else {
        if currentPose == 0 || currentPose == Sentinel {
          currentPose := |poses| - 1;
        } else {
          currentPose := currentPose - 1;
        }
      }
      lastChange := 0;
      header := PoseHeader(currentPose + 1, poses[currentPose].fullname);
      description := poses[currentPose].description;
    }

    /** The select button starts or stops the timer and changes nothing else. */
    method SelectClick()
      requires Valid()
      modifies this
      ensures Valid()
      ensures View() == ToggleRun(old(View()))
      ensures start == !old(start)
      ensures unchanged(this`currentPose, this`lastChange, this`titlePage, this`footer)
    {
      start := !start;
    }

    /** The up button moves to the PREVIOUS pose. */
    method UpClick()
      requires Valid()
      modifies this
      ensures Valid()
      ensures View() == Step(old(View()), poses, Up)
      ensures currentPose == Previous(old(currentPose), |poses|)
    {
      ChangePose(false);
    }

    /** The down button moves to the NEXT pose. */
    method DownClick()
      requires Valid()
      modifies this
      ensures Valid()
      ensures View() == Step(old(View()), poses, Down)
      ensures currentPose == Next(old(currentPose), |poses|)
    {
      ChangePose(true);
    }

    /**
     * Once a second: while running, count the second and, at the interval,
     * move to the next pose and request one vibration; then show the seconds
     * left. While paused, only show "Paused".
     */
    method Tick()
      requires Valid()
      modifies this
      ensures Valid()
      ensures View() == OnTick(old(View()), poses)
      ensures !old(start) ==>
                unchanged(this`currentPose, this`lastChange, this`pulses) && footer == Paused
      ensures old(start) ==>
                footer == SecondsLeft(Interval - lastChange) && 1 <= Interval - lastChange <= Interval
    {
      if start {
        lastChange := lastChange + 1;
        if lastChange >= Interval {
          ChangePose(true);
          pulses := pulses + 1;
        }
        footer := SecondsLeft(Interval - lastChange);
      } else {
        footer := Paused;
      }
    }
  }
}
