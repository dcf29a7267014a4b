/** What can go wrong while the modem is brought up, and the exit code it maps to. */
module Errors {
  import opened Codec

  /** The ways the firmware can break the protocol; the source tells them apart by message text. */
  datatype Violation =
    | ShortMessage(length: nat)
    | MissingEcho(tid: nat)
    | FrameLength(total: nat)
    | PortClosed
    | ModeRejected
    | ModeNotSet
    | ShortConnectReply
    | NotAnInteger(index: nat)

  datatype Error =
    | Io
    | CodecFailure(reason: CodecError)
    | Protocol(violation: Violation)
    | Timeout
    | AttachRefused
    | NoIp
    | FccUnlock
    | Network
  {
    function ExitCode(): nat {
      if AttachRefused? || NoIp? then 2 else 1
    }
  }
}
