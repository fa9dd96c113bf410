/** The Dog of the setup lab: a dog of a given size yips when small and
    barks from size 10 up. */
module Dogs {

  class Dog {
    /** Set by the constructor and never changed. */
    const size: int

    /** Dog(s). */
    constructor (s: int)
      ensures size == s
    {
      size := s;
    }

    /** noise: "yip" exactly for a dog smaller than 10, "bark" for every
        size from 10 up, 10 included. */
    function Noise(): (r: string)
      ensures r == "yip" <==> size < 10
      ensures r == "bark" <==> size >= 10
    {
      if size < 10 then "yip" else "bark"
    }
  }

  /** DogTest: a dog of size 3 yips and a dog of size 20 barks. */
  method SmallAndLargeDogs() returns (small: string, large: string)
    ensures small == "yip" && large == "bark"
  {
    var d := new Dog(3);
    small := d.Noise();
    var e := new Dog(20);
    large := e.Noise();
  }
}
