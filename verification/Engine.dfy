/** What any pipeline engine answers for a frame (crates/up4-engine/src/lib.rs). */
module Engine {
  import opened Bits

  datatype Verdict = Send(port: u16) | Broadcast | ToControl | Discard
}
