// What the check values of CRCs are given for.

module CheckInput {

  /** The nine characters "123456789". */
  const CHECK_INPUT: seq<bv8> := [0x31, 0x32, 0x33, 0x34, 0x35, 0x36, 0x37, 0x38, 0x39]
}
