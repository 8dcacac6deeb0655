/** The forward window test of protocol.h. */
module Protocol {
  import opened Words

  predicate IsNewer(last: u8, incoming: u8) {
    incoming != last && Sub8(incoming, last) < 15
  }

  /** Asked about the number before the expected one, the window is the expected
      number and the 13 after it, across the wrap from 255 to 0. */
  lemma WindowIsFourteenWide(expected: u8, incoming: u8)
    ensures IsNewer(Sub8(expected, 1), incoming) <==> Sub8(incoming, expected) < 14
  {
    assert Sub8(incoming, Sub8(expected, 1)) == Add8(Sub8(incoming, expected), 1);
  }
}
