/** The polling schedule of the OBD2 coroutine: each response makes the state machine leave its state
    and enter the next one, which sends the next command.

    Whether a response parses, whether the load in it says that the ignition is on, and whether the
    command can be sent, are parameters.
 */
module Obd2 {
  import opened Basics

  const BA_MODULO_N := 10

  datatype State = Reset | CILBr | Oil | BA

  /** One response, and the fate of the command sent after it. */
  datatype Response = Response(parses: bool, ignitionOn: bool, sends: bool)

  /** The state, the count of successive BA states, and the last command sent since the start. */
  datatype Machine = Machine(state: State, baCount: nat, sent: Option<string>)

  function Command(s: State): Option<string> {
    match s
    case Reset => None
    case CILBr => Some("01 05 0f 04 33\r")
    case Oil => Some("21 01\r")
    case BA => Some("01 34 0b\r")
  }

  function Exited(m: Machine, r: Response): Machine {
    match m.state
    case CILBr => m.(state := if r.parses && r.ignitionOn then Oil else Reset)
    case Oil => m.(state := if r.parses then BA else Reset)
    case BA =>
      if !r.parses then m.(state := Reset)
      else if m.baCount < BA_MODULO_N then m.(baCount := (m.baCount + 1) % 0x1_0000)
      else m.(state := CILBr, baCount := 0)
    case Reset => m
  }

  /** The command counts as sent even if the UART then reports an error. */
  function Entered(m: Machine, sends: bool): Machine {
    if m.state.Reset? then m
    else Machine(if sends then m.state else Reset, m.baCount, Command(m.state))
  }

  function Started(sends: bool): Machine { Entered(Machine(CILBr, 0, None), sends) }

  /** After an initialisation whose first command was sent or not, and a run of responses. */
  function After(first: bool, rs: seq<Response>): Machine {
    if rs == [] then Started(first)
    else
      var last := rs[|rs| - 1];
      Entered(Exited(After(first, rs[..|rs| - 1]), last), last.sends)
  }

  /** What response k has to bring to keep the polling going: the load is asked for in every 13th. */
  predicate Good(k: nat, r: Response) {
    r.parses && r.sends && (k % 13 == 0 ==> r.ignitionOn)
  }

  ghost predicate AllGood(first: bool, rs: seq<Response>) {
    first && forall k :: 0 <= k < |rs| ==> Good(k, rs[k])
  }

  function Scheduled(k: nat): State {
    if k % 13 == 0 then CILBr else if k % 13 == 1 then Oil else BA
  }

  /** The machine after k good responses. */
  function OnSchedule(k: nat): Machine {
    Machine(Scheduled(k), if k % 13 <= 2 then 0 else k % 13 - 2, Command(Scheduled(k)))
  }

  lemma NextOnSchedule(k: nat, r: Response)
    ensures var m := Entered(Exited(OnSchedule(k), r), r.sends);
            if Good(k, r) then m == OnSchedule(k + 1) else m.state == Reset && m.baCount <= BA_MODULO_N
  {
    assert (k + 1) % 13 == if k % 13 == 12 then 0 else k % 13 + 1;
  }

  /** After any run of responses, the state is the scheduled one, and its command the last one sent,
      if all of them were good; and reset, for good, if one was not. */
  lemma {:induction false} PollsOnSchedule(first: bool, rs: seq<Response>)
    ensures if AllGood(first, rs) then After(first, rs) == OnSchedule(|rs|) else After(first, rs).state == Reset
    ensures After(first, rs).baCount <= BA_MODULO_N
  {
    if rs != [] {
      hide OnSchedule, Good;
      var n := |rs| - 1;
      PollsOnSchedule(first, rs[..n]);
      NextOnSchedule(n, rs[n]);
      assert AllGood(first, rs) <==> AllGood(first, rs[..n]) && Good(n, rs[n]);
    }
  }

  /** What the schedule is: one CILBr, one Oil and eleven BA states, each with its command; and what a
      response has to bring: it parses, the next command is sent, and where the load was asked for it
      says that the ignition is on. */
  lemma WhatIsPolled(first: bool, rs: seq<Response>)
    ensures AllGood(first, rs) <==>
              first && forall k :: 0 <= k < |rs| ==> rs[k].parses && rs[k].sends && (k % 13 == 0 ==> rs[k].ignitionOn)
    ensures AllGood(first, rs) ==>
              After(first, rs).state == (if |rs| % 13 == 0 then CILBr else if |rs| % 13 == 1 then Oil else BA)
    ensures AllGood(first, rs) ==>
              After(first, rs).sent == Some(if |rs| % 13 == 0 then "01 05 0f 04 33\r"
                                            else if |rs| % 13 == 1 then "21 01\r" else "01 34 0b\r")
  {
    PollsOnSchedule(first, rs);
  }

  /** Nothing is sent in the reset state, and nothing but a new initialisation leaves it. */
  lemma ResetIsSilent(m: Machine, r: Response)
    ensures Exited(m, r).state.Reset? ==> Entered(Exited(m, r), r.sends).sent == m.sent
    ensures m.state.Reset? ==> Entered(Exited(m, r), r.sends) == m
  {
  }

  class Poller {
    var obd2State: State
    var baCount: nat
    var sent: Option<string>

    function Now(): Machine
      reads this
    {
      Machine(obd2State, baCount, sent)
    }

    constructor (sends: bool)
      ensures Now() == Started(sends)
    {
      obd2State, baCount, sent := CILBr, 0, None;
      new;
      StateEntry(sends);
    }

    /** A new initialisation leaves any state, the only way out of the reset state. */
    method Init(sends: bool)
      modifies this
      ensures Now() == Started(sends)
    {
      obd2State := Reset;
      baCount := 0;
      sent := None;
      obd2State := CILBr;
      StateEntry(sends);
    }

    method StateEntry(sends: bool)
      modifies this`obd2State, this`sent
      ensures Now() == Entered(old(Now()), sends)
    {
      var ok := true;
      if obd2State == Oil {
        sent, ok := Some("21 01\r"), sends;
      } else if obd2State == BA {
        sent, ok := Some("01 34 0b\r"), sends;
      } else if obd2State == CILBr {
        sent, ok := Some("01 05 0f 04 33\r"), sends;
      }
      if !ok {
        obd2State := Reset;
      }
    }

    method StateExit(r: Response)
      modifies this`obd2State, this`baCount
      ensures Now() == Exited(old(Now()), r)
    {
      if obd2State == CILBr {
        if r.parses {
          if !r.ignitionOn {
            obd2State := Reset;
          } else {
            obd2State := Oil;
          }
        } else {
          obd2State := Reset;
        }
      } else if obd2State == Oil {
        obd2State := if r.parses then BA else Reset;
      } else if obd2State == BA {
        if r.parses {
          var count := baCount;
          baCount := (baCount + 1) % 0x1_0000;
          if count < BA_MODULO_N {
            obd2State := BA;
          } else {
            baCount := 0;
            obd2State := CILBr;
          }
        } else {
          obd2State := Reset;
        }
      } else {
        obd2State := Reset;
      }
    }

    /** One response of a run. */
    method Update(r: Response, ghost first: bool, ghost before: seq<Response>) returns (alive: bool)
      requires Now() == After(first, before)
      modifies this
      ensures Now() == After(first, before + [r])
      ensures alive <==> AllGood(first, before + [r])
    {
      StateExit(r);
      StateEntry(r.sends);
      ghost var rs := before + [r];
      assert rs[..|rs| - 1] == before;
      PollsOnSchedule(first, rs);
      assert OnSchedule(|rs|).state != Reset;
      alive := obd2State != Reset;
    }
  }
}
