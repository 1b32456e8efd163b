/** Scheduled actions. Every call the simulation makes into the discrete-event
    scheduler is represented as a record of when the action fires, at which
    priority tier, and what it does; the scheduler itself is not modelled. */
module Events {

  /** Terminals are identified by their index in the port's terminal list;
      index 0 is the port entrance and exit ("t0"). */
  type TerminalId = nat

  /** Barges are identified by their barge number. */
  type BargeId = nat

  /** The port entrance/exit terminal. */
  const PortTerminal: TerminalId := 0

  /** Priority tiers used by the simulation: finishing handling fires first at a
      tick, starting handling and leaving the port last, everything else in the
      scheduler's default (random) tier. */
  datatype Priority = FirstPriority | RandomPriority | LastPriority

  datatype Action =
    | ArriveAtTerminal(barge: BargeId, terminal: TerminalId)
    | BargeArrives(terminal: TerminalId, barge: BargeId)
    | HandleBarge(terminal: TerminalId, barge: BargeId)
    | FinishHandling(terminal: TerminalId, barge: BargeId)
    | LeavePort(barge: BargeId)

  datatype Event = Event(time: int, priority: Priority, action: Action)
}
