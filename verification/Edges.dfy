/** The five-valued input state `State5` of include/module/Utils.h: a level, or the edge that led to it until the edge is
    cleared. */
module Edges {
  datatype Edge = NotKnown | Low | High | Falling | Rising
  {
    predicate IsHigh() { High? || Rising? }

    predicate IsLow() { Low? || Falling? }

    predicate HasEdge() { Falling? || Rising? }

    function Set(): Edge {
      if NotKnown? || Low? || Falling? then Rising else this
    }

    function Clr(): Edge {
      if NotKnown? || High? || Rising? then Falling else this
    }

    function ClearRising(): Edge {
      if Rising? then High else this
    }

    function ClearFalling(): Edge {
      if Falling? then Low else this
    }
  }

  class State5 {
    var value: Edge
    var pre_v: Edge

    constructor (v: Edge)
      ensures value == v && pre_v == v
    {
      value, pre_v := v, v;
    }

    method Set()
      modifies this
      ensures value == old(value).Set() && pre_v == old(value)
    {
      pre_v := value;
      if value == NotKnown || value == Low || value == Falling {
        value := Rising;
      }
    }

    method Clr()
      modifies this
      ensures value == old(value).Clr() && pre_v == old(value)
    {
      pre_v := value;
      if value == NotKnown || value == High || value == Rising {
        value := Falling;
      }
    }

    method ClearRising()
      modifies this`value
      ensures value == old(value).ClearRising()
    {
      if value == Rising {
        value := High;
      }
    }

    method ClearFalling()
      modifies this`value
      ensures value == old(value).ClearFalling()
    {
      if value == Falling {
        value := Low;
      }
    }
  }
}
