/** The kernel event record that the engine, the enricher and the replayer pass around. */
module KernelEvents {
  const TWO_64 := 0x1_0000_0000_0000_0000

  type uint32 = x: int | 0 <= x < 0x1_0000_0000
  type uint64 = x: int | 0 <= x < TWO_64
  type int64 = x: int | -0x8000_0000_0000_0000 <= x < 0x8000_0000_0000_0000

  datatype Option<+T> = None | Some(value: T)

  /** `Other` stands for any string outside the eight known types. */
  datatype EventType =
    | TcpSend | TcpRecv | TcpRetransmit | SysRead | SysWrite
    | SchedSwitch | PageFault | BlockIo | Other(name: string)

  datatype BlockPhase = Issue | Complete | OtherPhase(name: string)

  datatype Payload = Payload(
    blockSector: Option<uint64>, blockBytes: Option<uint64>, blockOp: string, blockPhase: BlockPhase)

  datatype Event = Event(
    eventId: string, eventType: EventType, timestampNs: uint64,
    pid: uint32, tid: uint32, cpu: uint32, cgroupId: uint64, schedNextPid: uint32,
    traceId: string, spanId: string, serviceName: string, transactionId: string,
    durationNs: uint64, returnValue: int64, payload: Payload)
}
