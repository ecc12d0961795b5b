/** The records exchanged by the stages of the peak finder (dsp/peakfinder.hpp:64-85), and their
    stored forms: stream positions are 64 bits wide and wrap around. */
module PeakTypes {
  import opened RingMath
  import opened Sequences

  datatype PeakType = Peak | Rising | Falling

  datatype ValueAtPos = ValueAtPos(streamPos: int, value: int)

  datatype RawPeak = RawPeak(streamPos: int, value: int, kind: PeakType) {
    function AtPos(): ValueAtPos {
      ValueAtPos(streamPos, value)
    }
  }

  /** The stored form of an event: its clock wraps. */
  function Stamp(origin: int, e: RawPeak): RawPeak {
    e.(streamPos := Wrap(origin + e.streamPos))
  }

  function StampAll(origin: int, events: seq<RawPeak>): (r: seq<RawPeak>)
    ensures |r| == |events|
    ensures forall i :: 0 <= i < |events| ==> r[i] == Stamp(origin, events[i])
  {
    seq(|events|, i requires 0 <= i < |events| => Stamp(origin, events[i]))
  }

  lemma StampConcat(origin: int, a: seq<RawPeak>, b: seq<RawPeak>)
    ensures StampAll(origin, a + b) == StampAll(origin, a) + StampAll(origin, b)
  {
  }

  /** The stored form of a remembered value. */
  function StampPlace(origin: int, m: ValueAtPos): ValueAtPos {
    m.(streamPos := Wrap(origin + m.streamPos))
  }

  function StampPlaces(origin: int, memory: seq<ValueAtPos>): (r: seq<ValueAtPos>)
    ensures |r| == |memory|
    ensures forall i :: 0 <= i < |memory| ==> r[i] == StampPlace(origin, memory[i])
  {
    seq(|memory|, i requires 0 <= i < |memory| => StampPlace(origin, memory[i]))
  }

  lemma StampDropLast(origin: int, right: seq<RawPeak>)
    requires right != []
    ensures StampAll(origin, DropLast(right)) == DropLast(StampAll(origin, right))
  {
  }

  lemma StampTail(origin: int, right: seq<RawPeak>)
    requires right != []
    ensures StampAll(origin, right[1..]) == StampAll(origin, right)[1..]
  {
  }

  lemma StampPlacesDropLast(origin: int, memory: seq<ValueAtPos>)
    requires memory != []
    ensures StampPlaces(origin, DropLast(memory)) == DropLast(StampPlaces(origin, memory))
  {
  }

  lemma StampPlacesTail(origin: int, memory: seq<ValueAtPos>)
    requires memory != []
    ensures StampPlaces(origin, memory[1..]) == StampPlaces(origin, memory)[1..]
  {
  }

  lemma StampPlacesAppend(origin: int, memory: seq<ValueAtPos>, m: ValueAtPos)
    ensures StampPlaces(origin, memory + [m]) == StampPlaces(origin, memory) + [StampPlace(origin, m)]
  {
  }
}
