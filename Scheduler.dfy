/**
 * Timed sending in APRS.py: the `scheduled_enabled` flag that `toggle_schedule`
 * flips (APRS.py:1113-1139), and the loop of `schedule_loop` that posts a send
 * and sleeps while the flag stays set (APRS.py:1141-1154).  The button and label
 * are kept as the texts they show; threads and sleeping are not modelled: a
 * sleep is recorded by its length, and the flag as the user left it at the end
 * of each sleep is an input to the loop.
 */
module Scheduler {
  import opened Text

  /** The interval error `toggle_schedule` raises and reports. */
  const NonPositiveInterval := "时间间隔必须大于0"
  const StartLabel := "启动定时发送"
  const StopLabel := "停止定时发送"
  const StoppedStatus := "状态: 已停止"

  /** What one press of the schedule button did. */
  datatype ToggleOutcome =
    | Stopped
    | Started(minutes: int)
    | InvalidInterval(message: string)

  /** The status line shown while sending every `minutes` minutes. */
  function RunningStatus(minutes: nat): string {
    "状态: 已启动 - 每 " + NatToString(minutes) + " 分钟"
  }

  /** How many of the first flags are set, up to the first cleared one. */
  function LeadingSet(flags: seq<bool>): (n: nat)
    ensures n <= |flags|
    ensures forall i :: 0 <= i < n ==> flags[i]
    ensures n < |flags| ==> !flags[n]
  {
    if flags == [] || !flags[0] then 0 else 1 + LeadingSet(flags[1..])
  }

  /** The sends a loop posts when the flag is `enabled` on entry and reads `flags` after each
      sleep: none when disabled, otherwise one per sleep until a sleep ends with the flag cleared,
      and no more than there are sleeps. */
  function Ticks(enabled: bool, flags: seq<bool>): (n: nat)
    ensures n <= |flags|
  {
    if !enabled || flags == [] then 0
    else if LeadingSet(flags) < |flags| then LeadingSet(flags) + 1
    else |flags|
  }

  /** `n` sleeps of `seconds` each. */
  function Sleeps(seconds: int, n: nat): (r: seq<int>)
    ensures |r| == n && forall i :: 0 <= i < n ==> r[i] == seconds
  {
    if n == 0 then [] else Sleeps(seconds, n - 1) + [seconds]
  }

  class Scheduler {
    /** `scheduled_enabled`. */
    var enabled: bool
    /** The interval chosen in minutes. */
    var intervalMinutes: int
    var buttonText: string
    var statusText: string
    /** Loops started by `toggle_schedule`, each on a thread of its own. */
    var loopsStarted: nat
    /** Sends posted to the GUI thread by the loops. */
    var sendsPosted: nat
    /** Every sleep a loop took, in seconds, in order. */
    var slept: seq<int>

    constructor()
      ensures !enabled && intervalMinutes == 30
      ensures buttonText == StartLabel && statusText == "状态: 未启动"
      ensures loopsStarted == 0 && sendsPosted == 0 && slept == []
    {
      enabled := false;
      intervalMinutes := 30;
      buttonText := StartLabel;
      statusText := "状态: 未启动";
      loopsStarted := 0;
      sendsPosted := 0;
      slept := [];
    }

    /** A choice in the interval box. */
    method ChooseInterval(minutes: int)
      modifies this
      ensures intervalMinutes == minutes
      ensures enabled == old(enabled) && buttonText == old(buttonText) && statusText == old(statusText)
      ensures loopsStarted == old(loopsStarted) && sendsPosted == old(sendsPosted) && slept == old(slept)
    {
      intervalMinutes := minutes;
    }

    /** `toggle_schedule`: stop when running; otherwise start a loop, unless the interval is not
        positive, in which case nothing changes and the error is reported. */
    method Toggle() returns (outcome: ToggleOutcome)
      modifies this
      ensures old(enabled) ==>
        (outcome == Stopped && !enabled && buttonText == StartLabel && statusText == StoppedStatus
         && loopsStarted == old(loopsStarted))
      ensures !old(enabled) && intervalMinutes <= 0 ==>
        (outcome == InvalidInterval(NonPositiveInterval) && !enabled
         && buttonText == old(buttonText) && statusText == old(statusText) && loopsStarted == old(loopsStarted))
      ensures !old(enabled) && intervalMinutes > 0 ==>
        (outcome == Started(intervalMinutes) && enabled && buttonText == StopLabel
         && statusText == RunningStatus(intervalMinutes) && loopsStarted == old(loopsStarted) + 1)
      ensures enabled <==> outcome.Started?
      ensures intervalMinutes == old(intervalMinutes) && sendsPosted == old(sendsPosted) && slept == old(slept)
    {
      if enabled {
        enabled := false;
        buttonText := StartLabel;
        statusText := StoppedStatus;
        return Stopped;
      }
      var interval := intervalMinutes;
      if interval <= 0 {
        return InvalidInterval(NonPositiveInterval);
      }
      enabled := true;
      buttonText := StopLabel;
      statusText := RunningStatus(interval);
      loopsStarted := loopsStarted + 1;
      outcome := Started(interval);
    }

    /** `schedule_loop`, run for as many sleeps as `flags` has: while the flag is set, post a
        send and sleep the interval in seconds; `flags[k]` is the flag when the k-th sleep ends. */
    method ScheduleLoop(flags: seq<bool>) returns (ticks: nat)
      modifies this
      ensures ticks == Ticks(old(enabled), flags)
      ensures sendsPosted == old(sendsPosted) + ticks
      ensures slept == old(slept) + Sleeps(old(intervalMinutes) * 60, ticks)
      ensures enabled == ((ticks == 0 && old(enabled)) || (ticks > 0 && flags[ticks - 1]))
      ensures intervalMinutes == old(intervalMinutes) && loopsStarted == old(loopsStarted)
      ensures buttonText == old(buttonText) && statusText == old(statusText)
    {
      var seconds := intervalMinutes * 60;
      ticks := 0;
      while enabled && ticks < |flags|
        invariant ticks <= |flags|
        invariant ticks == 0 ==> enabled == old(enabled)
        invariant 0 < ticks ==> old(enabled) && enabled == flags[ticks - 1]
        invariant forall i :: 0 <= i < ticks - 1 ==> flags[i]
        invariant sendsPosted == old(sendsPosted) + ticks
        invariant slept == old(slept) + Sleeps(seconds, ticks)
        invariant intervalMinutes == old(intervalMinutes) && loopsStarted == old(loopsStarted)
        invariant buttonText == old(buttonText) && statusText == old(statusText)
        decreases |flags| - ticks
      {
        sendsPosted := sendsPosted + 1;
        slept := slept + [seconds];
        enabled := flags[ticks];
        ticks := ticks + 1;
        if !enabled {
          break;
        }
      }
      LoopTicks(old(enabled), flags, ticks);
    }
  }

  /** Stopping and starting again within one sleep: a second loop is started while the flag ends
      that sleep set, so the first loop, reading it then, keeps posting as well. */
  method StartStopStart() returns (loops: nat, flagAfterSleep: bool)
    ensures loops == 2 && flagAfterSleep
  {
    var s := new Scheduler();
    var started := s.Toggle();
    var stopped := s.Toggle();
    var restarted := s.Toggle();
    loops := s.loopsStarted;
    flagAfterSleep := s.enabled;
  }

  /** A loop that stopped after `ticks` sleeps, having seen the flag set after every sleep but the
      last, posted exactly `Ticks` sends. */
  lemma LoopTicks(enabled: bool, flags: seq<bool>, ticks: nat)
    requires ticks <= |flags|
    requires ticks == 0 ==> !enabled || flags == []
    requires 0 < ticks ==> enabled && forall i :: 0 <= i < ticks - 1 ==> flags[i]
    requires 0 < ticks < |flags| ==> !flags[ticks - 1]
    ensures ticks == Ticks(enabled, flags)
  {
    if 0 < ticks {
      if flags[ticks - 1] {
        LeadingSetIs(flags, ticks);
      } else {
        LeadingSetIs(flags, ticks - 1);
      }
    }
  }

  /** The leading run of set flags is as long as the run that the flags show. */
  lemma LeadingSetIs(flags: seq<bool>, n: nat)
    requires n <= |flags|
    requires forall i :: 0 <= i < n ==> flags[i]
    requires n < |flags| ==> !flags[n]
    ensures LeadingSet(flags) == n
  {
  }

  // ---------------------------------------------------------------------------
  // Properties of the loop

  /** A loop entered with the flag cleared posts nothing and sleeps not at all. */
  lemma DisabledLoopIdle(flags: seq<bool>, seconds: int)
    ensures Ticks(false, flags) == 0 && Sleeps(seconds, Ticks(false, flags)) == []
  {
  }

  /** Every send after the first follows a sleep at whose end the flag was still set, and a loop
      that stops early stops on the first sleep that ends with the flag cleared. */
  lemma {:induction false} TicksFollowFlag(enabled: bool, flags: seq<bool>)
    ensures var n := Ticks(enabled, flags);
      (forall i :: 0 <= i < n - 1 ==> flags[i])
      && (0 < n < |flags| ==> !flags[n - 1])
      && (enabled && flags != [] ==> 0 < n)
  {
  }

  /** A flag kept set through every sleep keeps the loop posting one send per sleep. */
  lemma {:induction false} AlwaysSetTicks(flags: seq<bool>)
    requires forall i :: 0 <= i < |flags| ==> flags[i]
    ensures Ticks(true, flags) == |flags|
  {
    LeadingSetIs(flags, |flags|);
  }

  /** Stopping during the first sleep lets the loop post exactly the one send it began with. */
  lemma StoppedDuringFirstSleep(flags: seq<bool>)
    requires flags != [] && !flags[0]
    ensures Ticks(true, flags) == 1
  {
  }
}
