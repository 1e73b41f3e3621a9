/** Block I/O requests, shared by the schedulers. */
module IoRequests {

  datatype Direction = Read | Write | Flush | Discard

  datatype PriorityClass = NoClass | RealTime | BestEffort | Idle

  datatype Priority = Priority(cls: PriorityClass, level: nat)

  datatype IoRequest = IoRequest(
    id: nat, direction: Direction, sector: nat, nrSectors: nat, priority: Priority, pid: nat, deadline: nat)
}
