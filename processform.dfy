/**
 * The process entry form of the client: the draft process being typed, the
 * parent's list of processes, and the error line. Submitting validates the
 * draft and appends it; removing filters the list by pid. Numeric inputs are
 * coerced with `parseInt(value, 10) || 0`.
 */
module ProcessForm {
  import opened Wrappers
  import opened Processes

  // ---------------------------------------------------------------------------
  // `parseInt(value, 10) || 0`

  /** The white space `parseInt` skips before the number (the ASCII ones and the common Unicode ones). */
  predicate IsSpace(c: char)
  {
    c in {' ', '\t', '\n', '\r', '\U{000B}', '\U{000C}', '\U{00A0}', '\U{FEFF}', '\U{2028}', '\U{2029}'}
  }

  predicate IsDigit(c: char)
  {
    '0' <= c <= '9'
  }

  /** `s` without its leading white space. */
  function TrimStart(s: string): (r: string)
    ensures |r| <= |s| && r == s[|s| - |r|..]
    ensures forall i :: 0 <= i < |s| - |r| ==> IsSpace(s[i])
    ensures |r| > 0 ==> !IsSpace(r[0])
  {
    if |s| > 0 && IsSpace(s[0]) then
      var r := TrimStart(s[1..]);
      assert s[1..][|s| - 1 - |r|..] == s[|s| - |r|..];
      r
    else s
  }

  /** The length of the run of decimal digits that starts `s`. */
  function DigitRun(s: string): (n: nat)
    ensures n <= |s|
    ensures forall i :: 0 <= i < n ==> IsDigit(s[i])
    ensures n < |s| ==> !IsDigit(s[n])
  {
    if |s| > 0 && IsDigit(s[0]) then 1 + DigitRun(s[1..]) else 0
  }

  function DigitValue(c: char): nat
    requires IsDigit(c)
  {
    c as int - '0' as int
  }

  /** The value of a string of decimal digits. */
  function DigitsValue(d: string): nat
    requires forall i :: 0 <= i < |d| ==> IsDigit(d[i])
  {
    if |d| == 0 then 0
    else DigitsValue(d[..|d| - 1]) * 10 + DigitValue(d[|d| - 1])
  }

  /**
   * `parseInt(s, 10)`: skip leading white space, read an optional sign, then
   * the longest run of decimal digits; `None` (NaN) when there is no digit.
   */
  function ParseInt(s: string): Option<int>
  {
    var t := TrimStart(s);
    var negative := |t| > 0 && t[0] == '-';
    var u := if |t| > 0 && (t[0] == '-' || t[0] == '+') then t[1..] else t;
    var n := DigitRun(u);
    if n == 0 then None
    else
      var v: int := DigitsValue(u[..n]);
      Some(if negative then -v else v)
  }

  /** `parseInt(s, 10) || 0`: NaN (and 0) become 0. */
  function NumberValue(s: string): (r: int)
    ensures r == 0 || ParseInt(s) == Some(r)
    ensures ParseInt(s).None? ==> r == 0
  {
    match ParseInt(s)
    case None => 0
    case Some(v) => v
  }

  /** The decimal rendering of `n`, as `String(n)` gives it for an integer. */
  function Show(n: int): string
  {
    if n < 0 then "-" + ShowNat(-n) else ShowNat(n)
  }

  function ShowNat(n: nat): (s: string)
    ensures |s| > 0 && forall i :: 0 <= i < |s| ==> IsDigit(s[i])
  {
    if n < 10 then [('0' as int + n) as char]
    else ShowNat(n / 10) + [('0' as int + n % 10) as char]
  }

  /**
   * A number input holding the rendering of `n`, followed by anything that
   * does not continue the digits (a fraction, an exponent), reads back as `n`.
   */
  lemma {:induction false} ParseShown(n: int, rest: string)
    requires |rest| == 0 || !IsDigit(rest[0])
    ensures ParseInt(Show(n) + rest) == Some(n)
    ensures NumberValue(Show(n) + rest) == n
  {
    if n < 0 {
      var m: nat := -n;
      assert Show(n) == ['-'] + ShowNat(m);
      assert Show(n) + rest == ['-'] + (ShowNat(m) + rest);
      ParseNegative(m, rest);
    } else {
      ParseUnsigned(n, rest);
    }
  }

  lemma {:induction false} ParseUnsigned(m: nat, rest: string)
    requires |rest| == 0 || !IsDigit(rest[0])
    ensures ParseInt(ShowNat(m) + rest) == Some(m)
  {
    var d, t := ShowNat(m), ShowNat(m) + rest;
    assert IsDigit(t[0]) && !IsSpace(t[0]) && t[0] != '-' && t[0] != '+';
    assert TrimStart(t) == t;
    DigitsOfShown(m, rest);
    assert DigitRun(t) == |d| && t[..|d|] == d;
  }

  lemma {:induction false} ParseNegative(m: nat, rest: string)
    requires |rest| == 0 || !IsDigit(rest[0])
    ensures ParseInt(['-'] + (ShowNat(m) + rest)) == Some(-(m as int))
  {
    var t := ['-'] + (ShowNat(m) + rest);
    assert !IsSpace(t[0]);
    assert TrimStart(t) == t;
    assert t[1..] == ShowNat(m) + rest;
    DigitsOfShown(m, rest);
  }

  lemma {:induction false} DigitsOfShown(m: nat, rest: string)
    requires |rest| == 0 || !IsDigit(rest[0])
    ensures DigitRun(ShowNat(m) + rest) == |ShowNat(m)|
    ensures (ShowNat(m) + rest)[..|ShowNat(m)|] == ShowNat(m)
    ensures DigitsValue(ShowNat(m)) == m
  {
    var d := ShowNat(m);
    DigitRunOfDigits(d, rest);
    assert (d + rest)[..|d|] == d;
    if m >= 10 {
      DigitsOfShown(m / 10, []);
      assert d[..|d| - 1] == ShowNat(m / 10);
    }
  }

  lemma {:induction false} DigitRunOfDigits(d: string, rest: string)
    requires forall i :: 0 <= i < |d| ==> IsDigit(d[i])
    requires |rest| == 0 || !IsDigit(rest[0])
    ensures DigitRun(d + rest) == |d|
  {
    if |d| > 0 {
      assert (d + rest)[1..] == d[1..] + rest;
      DigitRunOfDigits(d[1..], rest);
    } else {
      assert d + rest == rest;
    }
  }

  /** Input with no digit at all (empty, or not a number) is coerced to 0. */
  lemma {:induction false} NoDigitsIsZero(s: string)
    requires forall i :: 0 <= i < |s| ==> !IsDigit(s[i])
    ensures NumberValue(s) == 0
  {
    var t := TrimStart(s);
    if |t| > 1 {
      assert t[1] == s[|s| - |t| + 1];
    }
    if |t| > 0 {
      assert t[0] == s[|s| - |t|];
    }
  }

  // ---------------------------------------------------------------------------
  // Validation

  const PidRequired := "Process ID is required"
  const ArrivalNegative := "Arrival time cannot be negative"
  const BurstNotPositive := "Burst time must be greater than 0"
  const PriorityInvalid := "Priority must be a non-negative number"
  const PidTaken := "Process ID already exists"

  predicate PidInUse(processes: seq<Process>, pid: string)
  {
    exists i :: 0 <= i < |processes| && processes[i].pid == pid
  }

  /** The priority check, which applies only when the priority field is shown. */
  predicate PriorityOk(draft: Process, showPriority: bool)
  {
    showPriority ==> draft.priority.Some? && draft.priority.value >= 0
  }

  /** The checks of `onSubmit`, in order: the message of the first that fails, or `None`. */
  function Check(draft: Process, processes: seq<Process>, showPriority: bool): (r: Option<string>)
    ensures r.Some? ==> r.value in {PidRequired, ArrivalNegative, BurstNotPositive, PriorityInvalid, PidTaken}
    ensures r.None? ==> draft.pid != "" && ValidProcess(draft) && !PidInUse(processes, draft.pid)
  {
    if draft.pid == "" then Some(PidRequired)
    else if draft.arrival < 0 then Some(ArrivalNegative)
    else if draft.burst <= 0 then Some(BurstNotPositive)
    else if !PriorityOk(draft, showPriority) then Some(PriorityInvalid)
    else if PidInUse(processes, draft.pid) then Some(PidTaken)
    else None
  }

  /**
   * A draft passes exactly when it is a valid process with a fresh, non-empty
   * pid (and a non-negative priority when shown); and each message is reported
   * exactly when its check fails and every earlier one passes.
   */
  lemma {:induction false} CheckMeaning(draft: Process, processes: seq<Process>, showPriority: bool)
    ensures var r := Check(draft, processes, showPriority);
            && (r.None? <==> draft.pid != "" && ValidProcess(draft) && PriorityOk(draft, showPriority)
                             && !PidInUse(processes, draft.pid))
            && (r == Some(PidRequired) <==> draft.pid == "")
            && (r == Some(ArrivalNegative) <==> draft.pid != "" && draft.arrival < 0)
            && (r == Some(BurstNotPositive) <==> draft.pid != "" && draft.arrival >= 0 && draft.burst <= 0)
            && (r == Some(PriorityInvalid) <==>
                  draft.pid != "" && ValidProcess(draft) && !PriorityOk(draft, showPriority))
            && (r == Some(PidTaken) <==>
                  draft.pid != "" && ValidProcess(draft) && PriorityOk(draft, showPriority) && PidInUse(processes, draft.pid))
  {
  }

  /** What the form keeps true of the list it builds: valid processes with non-empty, distinct pids. */
  predicate WellFormed(processes: seq<Process>)
  {
    && UniquePids(processes)
    && forall i :: 0 <= i < |processes| ==> processes[i].pid != "" && ValidProcess(processes[i])
  }

  /** Appending a draft that passes the checks keeps the list well-formed. */
  lemma {:induction false} AcceptedKeepsWellFormed(draft: Process, processes: seq<Process>, showPriority: bool)
    requires WellFormed(processes) && Check(draft, processes, showPriority).None?
    ensures WellFormed(processes + [draft])
    ensures showPriority && HasPriorities(processes) ==> HasPriorities(processes + [draft])
  {
    var r := processes + [draft];
    forall i, j | 0 <= i < j < |r| ensures r[i].pid != r[j].pid {
      if j == |processes| {
        assert r[i] == processes[i];
      } else {
        assert r[i] == processes[i] && r[j] == processes[j];
      }
    }
  }

  // ---------------------------------------------------------------------------
  // Removal

  /** `processes.filter(p => p.pid !== pid)` */
  function Without(processes: seq<Process>, pid: string): (r: seq<Process>)
    ensures |r| <= |processes|
    ensures forall p {:trigger p in r} {:trigger p in processes} :: p in r <==> p in processes && p.pid != pid
  {
    if |processes| == 0 then []
    else
      var rest := Without(processes[1..], pid);
      assert forall p :: p in processes <==> p == processes[0] || p in processes[1..];
      if processes[0].pid == pid then rest else [processes[0]] + rest
  }

  /**
   * In a list with distinct pids, removing the pid of element `i` deletes
   * exactly that element and keeps the others in their order; removing a pid
   * that is not there changes nothing.
   */
  lemma {:induction false} WithoutDeletes(processes: seq<Process>, i: int)
    requires UniquePids(processes) && 0 <= i < |processes|
    ensures Without(processes, processes[i].pid) == processes[..i] + processes[i + 1..]
  {
    var pid := processes[i].pid;
    if i == 0 {
      WithoutAbsent(processes[1..], pid);
      assert processes[..0] + processes[1..] == processes[1..];
    } else {
      assert UniquePids(processes[1..]);
      assert processes[1..][i - 1] == processes[i];
      WithoutDeletes(processes[1..], i - 1);
      assert processes[..i] + processes[i + 1..] == [processes[0]] + (processes[1..][..i - 1] + processes[1..][i..]);
    }
  }

  lemma {:induction false} WithoutAbsent(processes: seq<Process>, pid: string)
    requires forall k :: 0 <= k < |processes| ==> processes[k].pid != pid
    ensures Without(processes, pid) == processes
  {
    if |processes| > 0 {
      WithoutAbsent(processes[1..], pid);
      assert processes == [processes[0]] + processes[1..];
    }
  }

  /** Removing keeps the list well-formed. */
  lemma {:induction false} RemovalKeepsWellFormed(processes: seq<Process>, pid: string)
    requires WellFormed(processes)
    ensures WellFormed(Without(processes, pid))
    ensures HasPriorities(processes) ==> HasPriorities(Without(processes, pid))
  {
    var r := Without(processes, pid);
    forall a, b | 0 <= a < b < |r| ensures r[a].pid != r[b].pid {
      WithoutDistinct(processes, pid, a, b);
    }
    forall k | 0 <= k < |r| ensures r[k].pid != "" && ValidProcess(r[k]) && (HasPriorities(processes) ==> r[k].priority.Some?) {
      assert r[k] in r;
      var n :| 0 <= n < |processes| && processes[n] == r[k];
    }
  }

  /** Two positions of the filtered list come from two positions of the list, in the same order. */
  lemma {:induction false} WithoutDistinct(processes: seq<Process>, pid: string, a: int, b: int)
    requires UniquePids(processes) && 0 <= a < b < |Without(processes, pid)|
    ensures Without(processes, pid)[a].pid != Without(processes, pid)[b].pid
  {
    var r := Without(processes, pid);
    var rest := Without(processes[1..], pid);
    assert UniquePids(processes[1..]);
    if processes[0].pid == pid {
      WithoutDistinct(processes[1..], pid, a, b);
    } else if a == 0 {
      assert r[b] == rest[b - 1] && r[b] in rest;
      var n :| 0 <= n < |processes[1..]| && processes[1..][n] == r[b];
      assert processes[0].pid != processes[n + 1].pid;
    } else {
      WithoutDistinct(processes[1..], pid, a - 1, b - 1);
    }
  }

  // ---------------------------------------------------------------------------
  // The form

  /** The inputs of the form; `pid` is a text input, the others are number inputs. */
  datatype Input = PidInput | ArrivalInput | BurstInput | PriorityInput

  /** The draft after a reset: pid '', arrival 0, burst 1, priority 1 when shown and null otherwise. */
  function Blank(showPriority: bool): Process
  {
    Process("", 0, 1, if showPriority then Some(1) else None)
  }

  class Form {
    /** The parent's list, replaced through `setProcesses`. */
    var processes: seq<Process>
    /** The `process` state: the draft being typed. */
    var draft: Process
    /** The `error` state; "" when there is none. */
    var error: string
    const showPriority: bool

    constructor(processes: seq<Process>, showPriority: bool)
      ensures this.processes == processes && this.showPriority == showPriority
      ensures draft == Blank(showPriority) && error == ""
    {
      this.processes := processes;
      this.showPriority := showPriority;
      draft := Blank(showPriority);
      error := "";
    }

    /** `onChange`: one input changes one field of the draft, and the error is cleared. */
    method Change(input: Input, value: string)
      modifies this
      ensures processes == old(processes) && error == ""
      ensures input.PidInput? ==> draft == old(draft).(pid := value)
      ensures input.ArrivalInput? ==> draft == old(draft).(arrival := NumberValue(value))
      ensures input.BurstInput? ==> draft == old(draft).(burst := NumberValue(value))
      ensures input.PriorityInput? ==> draft == old(draft).(priority := Some(NumberValue(value)))
    {
      match input {
        case PidInput => draft := draft.(pid := value);
        case ArrivalInput => draft := draft.(arrival := NumberValue(value));
        case BurstInput => draft := draft.(burst := NumberValue(value));
        case PriorityInput => draft := draft.(priority := Some(NumberValue(value)));
      }
      error := "";
    }

    /**
     * `onSubmit`: on the first failing check its message becomes the error and
     * nothing else changes; otherwise the draft is appended to the list and the
     * form is reset. A well-formed list stays well-formed.
     */
    method Submit() returns (added: bool)
      modifies this
      ensures added <==> Check(old(draft), old(processes), showPriority).None?
      ensures !added ==> && error == Check(old(draft), old(processes), showPriority).value
                         && processes == old(processes) && draft == old(draft)
      ensures added ==> && processes == old(processes) + [old(draft)]
                        && draft == Blank(showPriority) && error == old(error)
      ensures WellFormed(old(processes)) ==> WellFormed(processes)
    {
      if draft.pid == "" {
        error := PidRequired;
        return false;
      }
      if draft.arrival < 0 {
        error := ArrivalNegative;
        return false;
      }
      if draft.burst <= 0 {
        error := BurstNotPositive;
        return false;
      }
      if showPriority && (draft.priority.None? || draft.priority.value < 0) {
        error := PriorityInvalid;
        return false;
      }
      if exists i :: 0 <= i < |processes| && processes[i].pid == draft.pid {
        error := PidTaken;
        return false;
      }
      if WellFormed(processes) {
        AcceptedKeepsWellFormed(draft, processes, showPriority);
      }
      processes := processes + [draft];
      draft := Blank(showPriority);
      return true;
    }

    /** `removeProcess`: the list keeps the processes with another pid, in order. */
    method Remove(pid: string)
      modifies this
      ensures processes == Without(old(processes), pid)
      ensures draft == old(draft) && error == old(error)
      ensures WellFormed(old(processes)) ==> WellFormed(processes)
    {
      if WellFormed(processes) {
        RemovalKeepsWellFormed(processes, pid);
      }
      processes := Without(processes, pid);
    }
  }
}
