/** The client's status calls as objects (src/cncclient.cpp:51-138, 260-274, 401-490, 543-581, 661-743). What the
    library does for a send is a parameter: whether it succeeds. Exceptions are results; the handlers around the calls
    (HANDLE_CNCREMOTE_EXCEPTIONS) swallow them. */
module CncClient {
  import opened XmlUtil
  import opened CncComms
  import StatusProtocol

  type Body = StatusProtocol.Body

  datatype CallResult = Called | BusyError | TransferError

  class RemoteCall {
    var response: Option<Body>
    var hasResponse: bool
    var failed: bool
    var busy: bool

    constructor ()
      ensures Value() == StatusProtocol.Call(None, false, false, false)
    {
      response, hasResponse, failed, busy := None, false, false, false;
    }

    function Value(): StatusProtocol.Call
      reads this
    {
      StatusProtocol.Call(response, hasResponse, failed, busy)
    }

    /** A busy call refuses. A failed send leaves the call busy, with nothing to wait for. */
    method CallAsync(sent: bool) returns (r: CallResult)
      modifies this
      ensures r == if old(busy) then BusyError else if sent then Called else TransferError
      ensures Value() == if old(busy) then old(Value()) else StatusProtocol.CallAsync(old(Value()))
      ensures busy && response == old(response) && (!old(busy) ==> !hasResponse && !failed)
    {
      if busy {
        return BusyError;
      }
      busy := true;
      hasResponse := false;
      failed := false;
      return if sent then Called else TransferError;
    }

    method GetResponse() returns (r: Option<Body>)
      ensures r == StatusProtocol.GetResponse(Value())
      ensures r.Some? <==> hasResponse && response.Some? && response != Some(StatusProtocol.Refused) && !failed
      ensures r.Some? ==> r == response
    {
      if !hasResponse || response.None? {
        return None;
      }
      if response.value.Refused? {
        return None;
      }
      if failed {
        return None;
      }
      return response;
    }

    method ClearResponse()
      modifies this
      ensures Value() == old(Value()).(hasResponse := false)
    {
      hasResponse := false;
    }

    /** The first part of OnResponse: the response is there, the call still busy. */
    method StoreResponse(body: Body)
      modifies this
      ensures Value() == old(Value()).(response := Some(body), hasResponse := true)
    {
      response := Some(body);
      hasResponse := true;
    }

    method OnResponse(body: Body)
      modifies this
      ensures Value() == old(Value()).(response := Some(body), hasResponse := true, busy := false)
    {
      StoreResponse(body);
      busy := false;
    }

    method OnError()
      modifies this
      ensures Value() == old(Value()).(failed := true, busy := false)
    {
      failed := true;
      busy := false;
    }
  }

  datatype PollResult = PollOk | NotConnected | WrongVersion

  class Client {
    const statusCall: RemoteCall
    var statusCache: nat
    var busyHeart: int
    var heartBeat: int
    var serverVer: real
    var state: State
    ghost var seen: nat

    /** The C++ constructor leaves the heartbeat, the busy mark and the cache uninitialised; they are taken as 0. */
    constructor ()
      ensures Value() == StatusProtocol.START.client && fresh(statusCall)
    {
      statusCall := new RemoteCall();
      statusCache, busyHeart, heartBeat, serverVer, state, seen := 0, 0, 0, 0.0, NO_STATE, 0;
    }

    ghost function Value(): StatusProtocol.Client
      reads this, statusCall
    {
      StatusProtocol.Client(statusCall.Value(), statusCache, busyHeart, heartBeat, serverVer, state, seen)
    }

    method SetBusy(level: nat)
      modifies this
      ensures Value() == StatusProtocol.SetBusy(old(Value()), level)
      ensures statusCache == level || statusCache == old(statusCache)
      ensures statusCache >= level && statusCache >= old(statusCache)
      ensures heartBeat < 0x7FFF_FFFF ==> busyHeart == heartBeat + 1
    {
      if level > statusCache {
        statusCache := level;
      }
      busyHeart := Successor(heartBeat);
    }

    method IsBusy(connected: bool, level: nat) returns (busy: bool)
      ensures busy == StatusProtocol.IsBusy(Value(), connected, level)
      ensures busy <==> !connected || statusCache > level || state.machineState > level
    {
      if !connected {
        return true;
      }
      if statusCache > state.machineState {
        return statusCache > level;
      }
      return state.machineState > level;
    }

    /** Poll: the two halves one after the other. What is asked, if anything, is the third result. */
    method Poll(connected: bool, sent: bool) returns (r: PollResult, asked: Option<StatusProtocol.Query>)
      modifies this, statusCall
      ensures r == if !connected then NotConnected else if old(serverVer) < 0.0 then WrongVersion else PollOk
      ensures var c, phase := StatusProtocol.Absorb(old(Value())), StatusProtocol.PhaseOf(old(Value()));
        var asks := r.PollOk? && StatusProtocol.Asks(c, phase.value);
        && asked == (if asks && sent then Some(StatusProtocol.QueryOf(phase.value)) else None)
        && Value() == if r.NotConnected? then old(Value()) else if asks then StatusProtocol.Sent(c) else c
    {
      if !connected {
        return NotConnected, None;
      }
      if serverVer <= 0.0 {
        if serverVer < 0.0 {
          return WrongVersion, None;
        }
        asked := Handshake(sent);
      } else {
        asked := AskState(sent);
      }
      return PollOk, asked;
    }

    method Handshake(sent: bool) returns (asked: Option<StatusProtocol.Query>)
      requires serverVer == 0.0
      modifies this, statusCall
      ensures var answer := StatusProtocol.GetResponse(old(statusCall.Value()));
        && serverVer == (if !(answer.Some? && answer.value.VersionIs?) then 0.0
                         else if answer.value.version < 3.0 then -1.0
                         else answer.value.version)
        && (serverVer != 0.0 ==> !statusCall.hasResponse)
      ensures asked.Some? ==> asked == Some(StatusProtocol.Version) && sent && serverVer == 0.0 && !old(statusCall.busy)
      ensures var c := StatusProtocol.AbsorbVersion(old(Value()));
        var asks := StatusProtocol.Asks(c, StatusProtocol.Handshake);
        && asked == (if asks && sent then Some(StatusProtocol.Version) else None)
        && Value() == if asks then StatusProtocol.Sent(c) else c
    {
      asked := None;
      if statusCall.hasResponse {
        var body := statusCall.GetResponse();
        if body.Some? && body.value.VersionIs? {
          serverVer := if body.value.version < MIN_PROTOCOL_VERSION then -1.0 else body.value.version;
          statusCall.ClearResponse();
        }
      }
      if !statusCall.busy && serverVer == 0.0 {
        var r := statusCall.CallAsync(sent);
        asked := if r.Called? then Some(StatusProtocol.Version) else None;
      }
    }

    method AskState(sent: bool) returns (asked: Option<StatusProtocol.Query>)
      modifies this, statusCall
      ensures var answer := StatusProtocol.GetResponse(old(statusCall.Value()));
        if answer.Some? && answer.value.Snapshot? then
          && state == answer.value.state
          && statusCache == (if old(heartBeat) >= old(busyHeart) then 0 else old(statusCache))
          && (old(heartBeat) < 0x7FFF_FFFF ==> heartBeat == old(heartBeat) + 1)
        else state == old(state) && statusCache == old(statusCache) && heartBeat == old(heartBeat)
      ensures asked == if sent && !old(statusCall.busy) then Some(StatusProtocol.GetState) else None
      ensures busyHeart == old(busyHeart) && serverVer == old(serverVer) && statusCall.busy
      ensures var c := StatusProtocol.AbsorbState(old(Value()));
        var asks := StatusProtocol.Asks(c, StatusProtocol.Status);
        && asked == (if asks && sent then Some(StatusProtocol.GetState) else None)
        && Value() == if asks then StatusProtocol.Sent(c) else c
    {
      asked := None;
      if statusCall.hasResponse {
        var body := statusCall.GetResponse();
        if body.Some? && body.value.Snapshot? {
          state := body.value.state;
          seen := body.value.handled;
          if heartBeat >= busyHeart {
            statusCache := 0;
          }
          heartBeat := Successor(heartBeat);
        }
      }
      if !statusCall.busy {
        var r := statusCall.CallAsync(sent);
        asked := if r.Called? then Some(StatusProtocol.GetState) else None;
      }
    }

    /** A motion command: SetBusy only after the notification has been sent. */
    method Command(level: nat, sent: bool)
      modifies this
      ensures Value() == if sent then StatusProtocol.SetBusy(old(Value()), level) else old(Value())
    {
      if sent {
        SetBusy(level);
      }
    }

    method JogVel(sent: bool)
      modifies this
      ensures Value() == if sent then StatusProtocol.SetBusy(old(Value()), MOVING) else old(Value())
    {
      Command(MOVING, sent);
    }

    method CycleStart(sent: bool)
      modifies this
      ensures Value() == if sent then StatusProtocol.SetBusy(old(Value()), RUNNING) else old(Value())
    {
      Command(RUNNING, sent);
    }

    /** Mdi: a call that is waited for; `answer` is the server's, or none when the call has thrown. */
    method Mdi(answer: Option<bool>) returns (ok: bool)
      modifies this
      ensures ok <==> answer == Some(true)
      ensures Value() == if answer.Some? then StatusProtocol.SetBusy(old(Value()), MDI) else old(Value())
    {
      if answer.None? {
        return false;
      }
      SetBusy(MDI);
      return answer.value;
    }

    /** Home: an axis there is not is refused before anything is sent. */
    method Home(axis: nat, sent: bool) returns (tried: bool)
      modifies this
      ensures tried == (axis < 6)
      ensures Value() == if tried && sent then StatusProtocol.SetBusy(old(Value()), RUNNING) else old(Value())
    {
      if axis >= MAX_AXES {
        return false;
      }
      Command(RUNNING, sent);
      return true;
    }
  }
}
