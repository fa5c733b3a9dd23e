/** What a client sees of DNS while it handles one call: for each owner name,
    a read that failed, no record, or the TXT strings of the RRset. */
module DnsReader {
  datatype Answer = Failed | NoRecord | Records(txts: seq<string>)

  type Reader = string -> Answer

  function TxtsAt(reader: Reader, name: string): seq<string> {
    if reader(name).Records? then reader(name).txts else []
  }
}
