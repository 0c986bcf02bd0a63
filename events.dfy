/**
 * `EvtEvent`, as the exporter sees it: the rendered XML, the written
 * timestamp string, the record id and the formatted message.
 */
module Events {
  import opened WinTypes

  datatype EvtEvent = EvtEvent(
    channel: string,
    provider: string,
    xml: string,
    timeWritten: string,
    recordId: U32,
    message: string)
}
