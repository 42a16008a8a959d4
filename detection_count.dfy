/**
  `detections_count_from_result`: how many boxes a detection-model result
  holds, read from whichever of the result's fields is available.
 */
module DetectionCount {

  /** One attribute access on a foreign object: missing, raising, or giving a value. */
  datatype Attr<T> = Absent | Raises | Value(v: T)

  /**
    The result's `boxes` object: `len(boxes)` and `boxes.xyxy.shape[0]`
    (each absent or raising when that shape of result does not support it).
   */
  datatype Boxes = Boxes(len: Attr<nat>, xyxyRows: Attr<nat>)

  /** A model result: its `boxes` attribute and `int(res.n)`. */
  datatype ModelResult = ModelResult(boxes: Attr<Boxes>, n: Attr<int>)

  /**
    The count, trying `len(res.boxes)`, then `res.boxes.xyxy.shape[0]`,
    then `int(res.n)`, then 0. Box collections never give a negative
    count: only the numeric field can, when neither box field was available.
   */
  function Count(res: ModelResult): (c: int)
    ensures c < 0 ==> res.n == Value(c)
    ensures c < 0 && res.boxes.Value? ==> !res.boxes.v.len.Value? && !res.boxes.v.xyxyRows.Value?
  {
    var fromBoxes :=
      match res.boxes
      case Value(b) =>
        if b.len.Value? then Value(b.len.v as int)
        else if b.xyxyRows.Value? then Value(b.xyxyRows.v as int)
        else Absent
      case _ => Absent;
    if fromBoxes.Value? then fromBoxes.v
    else match res.n
      case Value(k) => k
      case _ => 0
  }

  /** The first field of the chain that gave a value, or `default` when none did. */
  function FirstAvailable(chain: seq<Attr<int>>, default: int): (c: int)
    ensures (forall i :: 0 <= i < |chain| ==> !chain[i].Value?) ==> c == default
    ensures (exists i :: 0 <= i < |chain| && chain[i].Value?) ==>
              exists i :: 0 <= i < |chain| && chain[i] == Value(c)
                          && forall j :: 0 <= j < i ==> !chain[j].Value?
  {
    if chain == [] then default
    else if chain[0].Value? then chain[0].v
    else
      var c := FirstAvailable(chain[1..], default);
      assert forall i :: 1 <= i < |chain| ==> chain[i] == chain[1..][i - 1];
      c
  }

  function AsInt(a: Attr<nat>): Attr<int> {
    match a
    case Value(k) => Value(k as int)
    case Absent => Absent
    case Raises => Raises
  }

  /** The fields the source consults, in the order it consults them. */
  function Chain(res: ModelResult): seq<Attr<int>> {
    match res.boxes
    case Value(b) => [AsInt(b.len), AsInt(b.xyxyRows), res.n]
    case _ => [res.n]
  }

  /**
    The count is the first available field of the chain, and 0 when none is
    available: the sized collection wins over the `xyxy` rows, which win
    over the numeric field.
   */
  lemma {:induction false} CountIsFirstAvailable(res: ModelResult)
    ensures Count(res) == FirstAvailable(Chain(res), 0)
  {
    var chain := Chain(res);
    if res.boxes.Value? {
      var b := res.boxes.v;
      if !b.len.Value? && !b.xyxyRows.Value? {
        assert chain[1..][1..] == [res.n];
        if res.n.Value? {
          assert FirstAvailable([res.n], 0) == res.n.v;
        }
      }
    } else if res.n.Value? {
      assert FirstAvailable([res.n], 0) == res.n.v;
    }
  }
}
