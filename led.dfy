/** The colour of one APA106 LED: three 8-bit channels and nothing else. */
module Led {

  /** An unsigned byte, Rust's `u8`. */
  type u8 = x: int | 0 <= x < 256

  /** A colour is a plain value (`Copy` in the firmware): equal channels mean
      equal colours, and a copy has no identity of its own. The field order is
      the order in which the channels go out on the wire. */
  datatype Apa106Led = Apa106Led(red: u8, green: u8, blue: u8)

  const WARM_WHITE: Apa106Led := Apa106Led(255, 183, 76)

  /** Channel `k` in wire order: 0 is red, 1 is green, 2 is blue. */
  function Channel(c: Apa106Led, k: nat): u8
    requires k < 3
  {
    if k == 0 then c.red else if k == 1 then c.green else c.blue
  }

  /** A colour is nothing more than its three channels. */
  lemma ChannelsDetermineColour(a: Apa106Led, b: Apa106Led)
    ensures a == b <==> forall k :: 0 <= k < 3 ==> Channel(a, k) == Channel(b, k)
  {
    if forall k :: 0 <= k < 3 ==> Channel(a, k) == Channel(b, k) {
      assert Channel(a, 0) == Channel(b, 0);
      assert Channel(a, 1) == Channel(b, 1);
      assert Channel(a, 2) == Channel(b, 2);
    }
  }
}
