/** The string input source of the world-building demo: it hands out the
    characters of a fixed string one at a time. */
module InputDemo {
  import opened Wrappers

  class StringInputDevice {
    const input: string
    /** The position of the next character to hand out. */
    var index: int

    /** The index never passes the end of the input. */
    ghost predicate Valid()
      reads this
    {
      0 <= index <= |input|
    }

    /** StringInputDevice(s): starts at the first character. */
    constructor (s: string)
      ensures Valid() && input == s && index == 0
    {
      input := s;
      index := 0;
    }

    /** getNextKey: the character at index, and index moves on by one.
        Past the end charAt fails before index changes: None, and the
        device is left as it was. */
    method GetNextKey() returns (c: Option<char>)
      requires Valid()
      modifies this
      ensures Valid()
      ensures old(index) < |input| ==> c == Some(input[old(index)]) && index == old(index) + 1
      ensures old(index) == |input| ==> c == None && index == old(index)
    {
      if index >= |input| {
        return None;
      }
      c := Some(input[index]);
      index := index + 1;
    }

    /** possibleNextInput: some character is left. */
    function PossibleNextInput(): (b: bool)
      requires Valid()
      reads this
      ensures b <==> index < |input|
    {
      index < |input|
    }
  }

  /** A reader that takes keys while possibleNextInput holds gets the rest
      of the input in order, and then no input is left. */
  method ReadAll(d: StringInputDevice) returns (keys: string)
    requires d.Valid()
    modifies d
    ensures d.Valid() && !d.PossibleNextInput()
    ensures keys == old(d.input[d.index..])
  {
    keys := "";
    ghost var start := d.index;
    while d.PossibleNextInput()
      invariant d.Valid() && start <= d.index && keys == d.input[start..d.index]
      decreases |d.input| - d.index
    {
      var c := d.GetNextKey();
      keys := keys + [c.value];
    }
  }
}
