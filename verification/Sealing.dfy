/** Definitions that quantify over `Ask` stay closed to the verifier until a proof mentions
    `Ask(topic, 0)`. This keeps recursive and quantified facts out of the proofs about the heap;
    asking about one topic leaves the others closed. */
module Sealing {
  datatype Topic =
    | OfShape | OfIndex | OfSlots | OfCells | OfRange | OfRecords | OfCounting | OfTop | OfIndices
    | OfLedger | OfNames | OfRun | OfTree | OfStep | OfStats | OfTrim | OfHomes | OfHome

  predicate Ask(topic: Topic, u: int) {
    true
  }
}
