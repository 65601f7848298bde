/** The logging service the context writes to, reduced to the record of
    the calls made on it. */
module Logging {
  import opened Common

  /** `LogMethodEnum`. */
  datatype Severity = Trace | Debug | Info | Warn | Queue | Error | Fatal

  datatype LogEntry = Message(severity: Severity, text: string) | ExceptionEntry(error: Exception)

  /** `ILoggerService`: the calls received, in order. */
  class Logger {
    var entries: seq<LogEntry>

    constructor ()
      ensures entries == []
    {
      entries := [];
    }

    method LogMessage(severity: Severity, message: string)
      modifies this
      ensures entries == old(entries) + [Message(severity, message)]
    {
      entries := entries + [Message(severity, message)];
    }

    method LogException(error: Exception)
      modifies this
      ensures entries == old(entries) + [ExceptionEntry(error)]
    {
      entries := entries + [ExceptionEntry(error)];
    }
  }
}
