/** The save-file stream as the slot table uses it: a sequence of integers
    with a read cursor. Writes append; reads take the integer at the cursor
    and advance it. */
module Streams {

  class Stream {
    var data: seq<int>
    var pos: nat

    constructor (data: seq<int>)
      ensures this.data == data && pos == 0
    {
      this.data, pos := data, 0;
    }

    method WriteInt(x: int)
      modifies this
      ensures data == old(data) + [x] && pos == old(pos)
    {
      data := data + [x];
    }

    /** A read past the end fails in the game and the hooks abort on it;
        here it is excluded. */
    method ReadInt() returns (x: int)
      requires pos < |data|
      modifies this
      ensures x == old(data[pos]) && pos == old(pos) + 1 && data == old(data)
    {
      x := data[pos];
      pos := pos + 1;
    }
  }
}
