/** The C entry points over their global session, and the instruction monitor, in the form they are
    written: a pointer that is created, replaced and reset, and an object that counts and logs. */
module CosimBridgeCode {
  import opened Options
  import S = CosimSession
  import B = CosimBridge
  import C = CosimCode

  /** g_session */
  class Global {
    var session: C.Session?
    ghost var files: seq<seq<S.Line>>

    ghost function Abs(): B.Bridge
      reads this, session
    {
      if session == null then B.Bridge(None, files) else B.Bridge(Some(session.Abs()), [])
    }

    constructor ()
      ensures Abs() == B.EMPTY && session == null
    {
      session := null;
      files := [];
    }

    /** g_session.reset(), whose destructor resets the session first */
    method Destroy()
      modifies this, session
      ensures session == null && Abs() == B.Destroyed(old(Abs()))
    {
      if session != null {
        hide S.Reset;
        session.Reset();
        files := session.files;
        session := null;
      }
    }

    method Init(config: Option<S.Config>, sim: Option<S.Simulator>, logOpens: bool) returns (rc: int)
      modifies this, session
      ensures session == null || session == old(session) || fresh(session)
      ensures (Abs(), Some(rc)) == B.Do(old(Abs()), B.InitCall(config, sim, logOpens))
    {
      hide S.Reset, S.Init;
      if config.None? {
        return -1;
      }
      Destroy();
      var created := new C.Session();
      created.files := files;
      var outcome := created.Init(config.value, sim, logOpens);
      session := created;
      if outcome.Returned? {
        return 0;
      }
      Destroy();
      rc := -2;
    }

    method Retire(pc: nat, instr: nat) returns (rc: int)
      modifies session
      ensures (Abs(), Some(rc)) == B.Do(old(Abs()), B.RetireCall(pc, instr))
    {
      hide S.Retire;
      if session == null || !session.initialized {
        return -1;
      }
      var outcome := session.Retire(pc, instr);
      rc := if outcome.Returned? then 0 else -2;
    }

    /** None when the session raises: this entry point does not catch. */
    method StepDetail(d: S.Detail) returns (rc: Option<int>)
      modifies session
      ensures (Abs(), rc) == B.Do(old(Abs()), B.DetailCall(d))
    {
      hide S.StepDetail;
      if session == null || !session.initialized {
        return Some(-1);
      }
      var verdict := session.StepDetail(d);
      rc := if verdict.Accept? then Some(0) else if verdict.Reject? then Some(-2) else None;
    }

    method Clear()
      modifies session
      ensures Abs() == B.Do(old(Abs()), B.ClearErrors).0
    {
      if session == null || !session.initialized {
        return;
      }
      session.errors := [];
    }

    method Finish() returns (rc: int)
      modifies session
      ensures (Abs(), Some(rc)) == B.Do(old(Abs()), B.FinishCall)
    {
      hide S.Finish;
      if session != null {
        session.Finish();
      }
      rc := 0;
    }

    method Reset()
      modifies this, session
      ensures Abs() == B.Do(old(Abs()), B.ResetCall).0
    {
      Destroy();
    }
  }

  class MonInstr {
    const compareMode: B.Mode
    var retireCount: nat
    var log: Option<seq<B.MonLine>>
    ghost var files: seq<seq<B.MonLine>>

    ghost function Abs(): B.Monitor
      reads this
    {
      B.Monitor(compareMode, retireCount, log, files)
    }

    constructor (mode: B.Mode)
      ensures Abs() == B.MonStart(mode)
    {
      compareMode := mode;
      retireCount := 0;
      log := Some([B.MonHeader]);
      files := [];
    }

    /** None when the session call raises. */
    method Retire(txn: B.Txn, bridge: Global) returns (ok: Option<bool>)
      modifies this, bridge.session
      ensures var outcome := B.MonRetire(old(Abs()), old(bridge.Abs()), txn);
              && Abs() == outcome.0 && bridge.Abs() == outcome.1
              && ok.Some? == (B.CallOf(compareMode, txn).Some? ==>
                                B.Do(old(bridge.Abs()), B.CallOf(compareMode, txn).value).1.Some?)
              && (ok.Some? ==> ok.value == outcome.2)
    {
      hide B.Do;
      var rc: Option<int> := Some(0);
      match compareMode {
        case DetailMode =>
          rc := bridge.StepDetail(S.Detail(if txn.gprValid then txn.gprAddr else 0,
                                           if txn.gprValid then txn.gprData else 0,
                                           txn.pc, txn.trap, false,
                                           txn.csrValid, txn.csrAddr, txn.csrMask, txn.csrData));
        case RetireMode =>
          var code := bridge.Retire(txn.pc, txn.instr);
          rc := Some(code);
        case LogOnly =>
      }
      if rc.None? {
        return None;
      }
      LogRetire(txn, rc.value);
      retireCount := retireCount + 1;
      ok := Some(rc.value == 0);
    }

    method LogRetire(txn: B.Txn, rc: int)
      modifies this`log
      ensures log == if old(log).None? then None
                     else Some(old(log).value + [B.MonRow(retireCount, txn, B.ResultName(compareMode, rc))])
    {
      if log.None? {
        return;
      }
      var result := if compareMode.LogOnly? then "LOG" else if rc == 0 then "PASS" else "FAIL";
      log := Some(log.value + [B.MonRow(retireCount, txn, result)]);
    }

    method Finish()
      modifies this
      ensures Abs() == B.MonFinish(old(Abs()))
    {
      if log.Some? {
        files := files + [log.value + [B.MonTrailer(retireCount)]];
        log := None;
      }
    }
  }
}
