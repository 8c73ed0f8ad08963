/**
  How the firmware's status decision reads the coordinator's status reply: the
  server's records decide the firmware's next state.
*/
module Protocol {
  import opened Common
  import Coordinator
  import Firmware

  /** The fields of the status JSON the firmware reads; an absent "exploration_complete" reads as false. */
  function ParseStatus(r: Coordinator.StatusReply): (doc: Firmware.StatusDoc)
    ensures doc.isRunning == r.isRunning && doc.nextMove == r.nextMove
  {
    Firmware.StatusDoc(r.isRunning, r.needsImage, r.waitingForImage, r.nextMove, r.explorationComplete)
  }

  /**
    A status check that reaches the server never leaves the firmware checking again:
    stopped means complete, running but not ready means wait for the camera, ready
    means move to the top of the stack, or complete when the stack is empty.
  */
  lemma FirmwareFollowsServer(state: Coordinator.RobotRecord, mapData: Coordinator.MapRecord)
    ensures
      var d := Firmware.Decide(ParseStatus(Coordinator.RobotStatus(state, mapData)));
      var stack := mapData.explorationStack;
      && d.next != Firmware.CheckingStatus
      && (!state.isRunning ==> d.next == Firmware.ExplorationComplete)
      && (state.isRunning && !Coordinator.ReadyForMove(state, mapData) ==> d.next == Firmware.WaitingForImage)
      && (Coordinator.ReadyForMove(state, mapData) && stack != [] ==>
            d == Firmware.Decision(Firmware.MovingToTarget, Some(stack[|stack| - 1])))
      && (Coordinator.ReadyForMove(state, mapData) && stack == [] ==> d.next == Firmware.ExplorationComplete)
  {
  }
}
