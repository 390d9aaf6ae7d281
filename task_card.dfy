/**
 * The countdown of a task card: the deadline is the creation time plus the
 * time limit in minutes, and the card shows the minutes and seconds left
 * (whole hours dropped) or "Time's up!". Times are integer milliseconds.
 */
module TaskCard {
  import opened Wrappers
  import opened JsString
  import opened Schema

  const MsPerSecond := 1000
  const MsPerMinute := 60000
  const MsPerHour := 3600000
  const TimesUpText := "Time's up!"

  datatype TimeLeft = TimesUp | Remaining(minutes: nat, seconds: nat)

  function Deadline(createdAt: int, timeLimit: int): (d: int)
    ensures d >= createdAt <==> timeLimit >= 0
  {
    createdAt + timeLimit * MsPerMinute
  }

  /**
   * `calculateTimeLeft`: "Time's up!" once the deadline is reached; otherwise
   * the minutes and seconds of the time left beyond whole hours, the
   * milliseconds below a second being dropped.
   */
  function CalculateTimeLeft(createdAt: int, timeLimit: int, now: int): (r: TimeLeft)
    ensures r.TimesUp? <==> now >= Deadline(createdAt, timeLimit)
    ensures r.Remaining? ==> r.minutes < 60 && r.seconds < 60
    ensures r.Remaining? ==>
              var diff := Deadline(createdAt, timeLimit) - now;
              var belowHour := diff % MsPerHour;
              0 <= belowHour - r.minutes * MsPerMinute - r.seconds * MsPerSecond < MsPerSecond
  {
    var diff := Deadline(createdAt, timeLimit) - now;
    if diff <= 0 then TimesUp
    else
      var r := Remaining((diff / MsPerMinute) % 60, (diff / MsPerSecond) % 60);
      ClockDigits(diff);
      r
  }

  lemma ClockDigits(diff: nat)
    ensures var m, s := (diff / MsPerMinute) % 60, (diff / MsPerSecond) % 60;
            0 <= diff % MsPerHour - m * MsPerMinute - s * MsPerSecond < MsPerSecond
  {
    var h, rest := diff / MsPerHour, diff % MsPerHour;
    var m, r2 := rest / MsPerMinute, rest % MsPerMinute;
    var s, r3 := r2 / MsPerSecond, r2 % MsPerSecond;
    assert m < 60 && s < 60;
    DivMinute(diff, h * 60 + m, r2);
    Div60(h * 60 + m, h, m);
    DivSecond(diff, h * 3600 + m * 60 + s, r3);
    Div60(h * 3600 + m * 60 + s, h * 60 + m, s);
  }

  /** Division with a remainder in range gives back the quotient and the remainder. */
  lemma Div60(n: int, q: int, r: int)
    requires 0 <= r < 60 && n == q * 60 + r
    ensures n / 60 == q && n % 60 == r
  {
  }

  lemma DivSecond(n: int, q: int, r: int)
    requires 0 <= r < MsPerSecond && n == q * MsPerSecond + r
    ensures n / MsPerSecond == q && n % MsPerSecond == r
  {
  }

  lemma DivMinute(n: int, q: int, r: int)
    requires 0 <= r < MsPerMinute && n == q * MsPerMinute + r
    ensures n / MsPerMinute == q && n % MsPerMinute == r
  {
  }

  /** `${minutes}m ${seconds}s`, or the time's-up text. */
  function Render(t: TimeLeft): (r: string)
    ensures r != []
    ensures t.Remaining? ==> r[|r| - 1] == 's'
  {
    match t
    case TimesUp => TimesUpText
    case Remaining(m, s) => NatToString(m) + "m " + NatToString(s) + "s"
  }

  /** The chip turns to its warning colour exactly when the deadline has passed. */
  lemma RenderTimesUpIff(t: TimeLeft)
    ensures Render(t) == TimesUpText <==> t.TimesUp?
  {
    if t.Remaining? {
      var r := Render(t);
      assert r[0] == NatToString(t.minutes)[0];
      assert TimesUpText[0] == 'T';
    }
  }

  /** The digits before a non-digit separator are determined by the whole text. */
  lemma DigitPrefix(a1: string, a2: string, rest1: string, rest2: string)
    requires forall i :: 0 <= i < |a1| ==> '0' <= a1[i] <= '9'
    requires forall i :: 0 <= i < |a2| ==> '0' <= a2[i] <= '9'
    requires |rest1| > 0 && |rest2| > 0 && rest1[0] == rest2[0] == 'm'
    requires a1 + rest1 == a2 + rest2
    ensures a1 == a2 && rest1 == rest2
  {
    var r := a1 + rest1;
    assert a1 == r[..|a1|];
    assert a2 == r[..|a2|];
    assert rest1 == r[|a1|..];
    assert rest2 == r[|a2|..];
  }

  /** Different minutes or seconds never render alike. */
  lemma RenderInjective(m1: nat, s1: nat, m2: nat, s2: nat)
    requires Render(Remaining(m1, s1)) == Render(Remaining(m2, s2))
    ensures m1 == m2 && s1 == s2
  {
    var a1, b1 := NatToString(m1), NatToString(s1);
    var a2, b2 := NatToString(m2), NatToString(s2);
    assert Render(Remaining(m1, s1)) == a1 + ("m " + b1 + "s");
    assert Render(Remaining(m2, s2)) == a2 + ("m " + b2 + "s");
    DigitPrefix(a1, a2, "m " + b1 + "s", "m " + b2 + "s");
    SecondsPart(b1, b2);
    NatToStringInjective(m1, m2);
    NatToStringInjective(s1, s2);
  }

  /** The seconds between the `m ` and the `s` are determined by the text. */
  lemma SecondsPart(b1: string, b2: string)
    requires "m " + b1 + "s" == "m " + b2 + "s"
    ensures b1 == b2
  {
    var t := "m " + b1 + "s";
    assert b1 == t[2..|t| - 1];
    assert b2 == t[2..|t| - 1];
  }

  /** Ninety minutes left show as "30m 0s": the hour is dropped. */
  lemma NinetyMinutesLeft(createdAt: int)
    ensures CalculateTimeLeft(createdAt, 90, createdAt) == Remaining(30, 0)
    ensures Render(Remaining(30, 0)) == "30m 0s"
  {
    assert NatToString(30) == "30" && NatToString(0) == "0";
  }

  /** JavaScript truthiness of the nullable time limit: neither null nor 0. */
  predicate HasTimeLimit(t: Task) {
    t.timeLimit.Some? && t.timeLimit.value != 0
  }

  /**
   * The countdown text of a card (`timeLeft`): null when the task has no
   * truthy time limit, no creation time, or is completed; otherwise the
   * rendered time left at `now`.
   */
  function TimerText(t: Task, now: int): (r: Option<string>)
    ensures r.None? <==> !HasTimeLimit(t) || t.createdAt.None? || IsCompleted(t)
    ensures r.Some? ==> r.value == Render(CalculateTimeLeft(t.createdAt.value, t.timeLimit.value, now))
  {
    if !HasTimeLimit(t) || t.createdAt.None? || IsCompleted(t) then None
    else Some(Render(CalculateTimeLeft(t.createdAt.value, t.timeLimit.value, now)))
  }

  /** The timer chip is shown for a truthy time limit on an open task. */
  predicate ShowsTimerChip(t: Task)
    ensures ShowsTimerChip(t) ==> ShowsCompleteButton(t)
  {
    HasTimeLimit(t) && !IsCompleted(t)
  }

  /** The complete button is shown for open tasks only. */
  predicate ShowsCompleteButton(t: Task) {
    !IsCompleted(t)
  }

  /** A shown chip of a task with a creation time has a countdown, and the countdown runs only under a shown chip. */
  lemma ChipAndTimer(t: Task, now: int)
    ensures ShowsTimerChip(t) && t.createdAt.Some? ==> TimerText(t, now).Some?
    ensures TimerText(t, now).Some? ==> ShowsTimerChip(t) && ShowsCompleteButton(t)
  {
  }

  /** What the slot of the timer chip renders. */
  datatype Slot = Nothing | Chip | Text(s: string)

  /**
   * The slot as written, `{task.timeLimit && !task.completed && (<chip/>)}`:
   * `&&` yields its first falsy operand, and React renders nothing for null
   * and false but prints the number 0.
   */
  function TimerSlotAsWritten(t: Task): (r: Slot)
    ensures r == Chip <==> ShowsTimerChip(t)
    ensures r.Text? ==> t.timeLimit == Some(0) && r.s == "0"
  {
    if t.timeLimit.None? then Nothing
    else if t.timeLimit.value == 0 then Text("0")
    else if IsCompleted(t) then Nothing
    else Chip
  }

  /** A task with a time limit of 0 makes the card print a stray "0". */
  lemma TimerSlotPrintsZero(t: Task)
    requires t.timeLimit == Some(0)
    ensures TimerSlotAsWritten(t) == Text("0")
    ensures TimerSlotAsWritten(t) != TimerSlot(t)
  {
  }

  /** The slot as intended: the chip when the chip's condition holds, nothing otherwise. */
  function TimerSlot(t: Task): (r: Slot)
    ensures r != Chip ==> r == Nothing
    ensures r == Chip <==> ShowsTimerChip(t)
  {
    if ShowsTimerChip(t) then Chip else Nothing
  }

  /** Apart from a zero time limit, the slot as written renders what is intended. */
  lemma TimerSlotAgrees(t: Task)
    requires t.timeLimit != Some(0)
    ensures TimerSlotAsWritten(t) == TimerSlot(t)
  {
  }
}
