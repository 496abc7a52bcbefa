/** src/main.cpp: the ESP32 firmware's SIF reader. The interrupt handler
    clears the buffer on every sync pulse and raises `newDataAvailable` when
    a frame is accepted; the main loop hands the frame to `VehicleLogic`
    while the vehicle is on SIF data. */
module MainReader {
  import opened Bits
  import opened SifProtocol
  import opened SifDecoder
  import opened Logic

  class SifReader {
    const decoder: Decoder
    var newDataAvailable: bool
    var sifPacketCount: nat

    ghost predicate Valid()
      reads this, decoder
    {
      decoder.Valid() && decoder.clearOnSync
    }

    constructor()
      ensures Valid() && fresh(decoder) && fresh(decoder.data)
      ensures decoder.State() == INIT && !newDataAvailable && sifPacketCount == 0
    {
      decoder := new Decoder(true);
      newDataAvailable := false;
      sifPacketCount := 0;
    }

    /** `sifChange` (src/main.cpp:170-209): one pin edge. The flag is raised
        exactly when the edge completes a fresh frame, and is never lowered
        here. */
    method SifChange(level: Level, duration: ULong)
      requires Valid() && CanDivide(decoder.State(), Edge(level, duration))
      modifies this, decoder, decoder.data
      ensures Valid()
      ensures var r := Step(old(decoder.State()), Edge(level, duration), true);
        && decoder.State() == r.state
        && newDataAvailable == (old(newDataAvailable) || r.accepted)
        && sifPacketCount == old(sifPacketCount)
    {
      var accepted := decoder.HandleEdge(level, duration);
      if accepted {
        newDataAvailable := true;
      }
    }

    /** The first block of `loop()` (src/main.cpp:99-110): when a frame is
        waiting and the vehicle is on SIF data, lower the flag, count the
        packet, copy the buffer and parse it. Otherwise nothing changes. */
    method ConsumeFrame(logic: VehicleLogic)
      requires Valid()
      modifies this, logic
      ensures Valid() && decoder.State() == old(decoder.State())
      ensures old(newDataAvailable && logic.data.usingSifData) ==>
        && !newDataAvailable && sifPacketCount == old(sifPacketCount) + 1
        && logic.data == WithSifFrame(old(logic.data), decoder.data[..])
        && logic.targetRpm == logic.data.rpm
      ensures !old(newDataAvailable && logic.data.usingSifData) ==>
        && newDataAvailable == old(newDataAvailable) && sifPacketCount == old(sifPacketCount)
        && logic.data == old(logic.data) && logic.targetRpm == old(logic.targetRpm)
      ensures logic.lastPythonData == old(logic.lastPythonData)
    {
      if newDataAvailable && logic.data.usingSifData {
        newDataAvailable := false;
        sifPacketCount := sifPacketCount + 1;
        var localData := decoder.data[..];
        logic.ParseSifData(localData);
      }
    }
  }
}
