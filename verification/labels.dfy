/**
 Turning one frame's detector output into a list of class labels, and
 choosing the dominant label of that list.

 The detector is opaque: a frame yields a sequence of results, each holding
 the boxes it found, and each box carries the integer class index of the
 object. The detector's vocabulary maps class indices to label strings.
 */
module Labels {
  import opened Wrappers

  type Label = string

  /** One detected box; only its class index matters to the policy. */
  datatype Box = Box(cls: int)

  /** One detector result: the boxes it found in the frame. */
  datatype DetectionResult = DetectionResult(boxes: seq<Box>)

  /** The detector's class names, indexed by class index. */
  type Vocabulary = map<int, Label>

  /** Every box of every result, in result order and then box order. */
  function AllBoxes(results: seq<DetectionResult>): seq<Box>
  {
    if results == [] then [] else results[0].boxes + AllBoxes(results[1..])
  }

  /** True when every box names a class the vocabulary knows. */
  ghost predicate AllKnown(vocab: Vocabulary, boxes: seq<Box>)
  {
    forall i :: 0 <= i < |boxes| ==> boxes[i].cls in vocab
  }

  /** `names` holds exactly the vocabulary label of each box, in order. */
  ghost predicate LabelsFor(vocab: Vocabulary, boxes: seq<Box>, names: seq<Label>)
  {
    && |names| == |boxes|
    && forall i :: 0 <= i < |boxes| ==> boxes[i].cls in vocab && names[i] == vocab[boxes[i].cls]
  }

  /** `cls` is the class of the first box in `boxes` that the vocabulary lacks. */
  ghost predicate FirstUnknown(vocab: Vocabulary, boxes: seq<Box>, cls: int)
  {
    exists k :: 0 <= k < |boxes| && boxes[k].cls == cls && cls !in vocab && AllKnown(vocab, boxes[..k])
  }

  /**
   `r` is the outcome of looking up every box in order: the labels of all
   boxes when every class is known, otherwise the first unknown class index.
   */
  ghost predicate LookedUp(vocab: Vocabulary, boxes: seq<Box>, r: Result<seq<Label>, int>)
  {
    && (r.Success? <==> AllKnown(vocab, boxes))
    && (r.Success? ==> LabelsFor(vocab, boxes, r.value))
    && (r.Failure? ==> FirstUnknown(vocab, boxes, r.error))
  }

  /** The first failure of two lookups done one after the other, or both label lists joined. */
  function Then(a: Result<seq<Label>, int>, b: Result<seq<Label>, int>): Result<seq<Label>, int>
  {
    match a
    case Failure(_) => a
    case Success(x) =>
      match b
      case Failure(_) => b
      case Success(y) => Success(x + y)
  }

  lemma AllKnownAppend(vocab: Vocabulary, a: seq<Box>, b: seq<Box>)
    ensures AllKnown(vocab, a + b) <==> AllKnown(vocab, a) && AllKnown(vocab, b)
  {
    if AllKnown(vocab, a) && AllKnown(vocab, b) {
      forall i | 0 <= i < |a + b| ensures (a + b)[i].cls in vocab {
        if i >= |a| { assert (a + b)[i] == b[i - |a|]; }
      }
    }
    if AllKnown(vocab, a + b) {
      forall i | 0 <= i < |a| ensures a[i].cls in vocab {
        assert a[i] == (a + b)[i];
      }
      forall i | 0 <= i < |b| ensures b[i].cls in vocab {
        assert b[i] == (a + b)[|a| + i];
      }
    }
  }

  /** A failure in the first list is the first failure of the concatenation. */
  lemma FirstUnknownPrefix(vocab: Vocabulary, x: seq<Box>, y: seq<Box>, c: int)
    requires FirstUnknown(vocab, x, c)
    ensures FirstUnknown(vocab, x + y, c)
  {
    var k :| 0 <= k < |x| && x[k].cls == c && c !in vocab && AllKnown(vocab, x[..k]);
    assert (x + y)[..k] == x[..k] && (x + y)[k] == x[k];
  }

  /** After a fully known first list, a failure in the second is the first failure of the concatenation. */
  lemma FirstUnknownSuffix(vocab: Vocabulary, x: seq<Box>, y: seq<Box>, c: int)
    requires AllKnown(vocab, x) && FirstUnknown(vocab, y, c)
    ensures FirstUnknown(vocab, x + y, c)
  {
    var k :| 0 <= k < |y| && y[k].cls == c && c !in vocab && AllKnown(vocab, y[..k]);
    assert (x + y)[..|x| + k] == x + y[..k] && (x + y)[|x| + k] == y[k];
    AllKnownAppend(vocab, x, y[..k]);
  }

  /** The labels of two fully known lists, joined, are the labels of their concatenation. */
  lemma LabelsForAppend(vocab: Vocabulary, x: seq<Box>, y: seq<Box>, lx: seq<Label>, ly: seq<Label>)
    requires LabelsFor(vocab, x, lx) && LabelsFor(vocab, y, ly)
    ensures LabelsFor(vocab, x + y, lx + ly)
  {
  }

  /** Looking up two box lists one after the other is looking up their concatenation. */
  lemma LookedUpAppend(vocab: Vocabulary, x: seq<Box>, y: seq<Box>, a: Result<seq<Label>, int>, b: Result<seq<Label>, int>)
    requires LookedUp(vocab, x, a) && LookedUp(vocab, y, b)
    ensures LookedUp(vocab, x + y, Then(a, b))
  {
    AllKnownAppend(vocab, x, y);
    if a.Failure? {
      FirstUnknownPrefix(vocab, x, y, a.error);
    } else if b.Failure? {
      FirstUnknownSuffix(vocab, x, y, b.error);
    } else {
      LabelsForAppend(vocab, x, y, a.value, b.value);
    }
  }

  /** Looks up the label of one box. */
  function LookupBox(vocab: Vocabulary, b: Box): (r: Result<seq<Label>, int>)
    ensures LookedUp(vocab, [b], r)
  {
    if b.cls in vocab then Success([vocab[b.cls]])
    else
      assert [b][..0] == [] && [b][0] == b;
      Failure(b.cls)
  }

  /**
   Looks up the label of each box in turn; the first class index missing from
   the vocabulary is a lookup failure that ends the collection.
   */
  function LookupLabels(vocab: Vocabulary, boxes: seq<Box>): (r: Result<seq<Label>, int>)
    ensures LookedUp(vocab, boxes, r)
  {
    if boxes == [] then Success([])
    else
      assert boxes == [boxes[0]] + boxes[1..];
      LookedUpAppend(vocab, [boxes[0]], boxes[1..], LookupBox(vocab, boxes[0]), LookupLabels(vocab, boxes[1..]));
      Then(LookupBox(vocab, boxes[0]), LookupLabels(vocab, boxes[1..]))
  }

  /**
   The label list of one frame: one entry per detected box across all
   results, in order, each the vocabulary label of the box's class.
   */
  function CollectLabels(vocab: Vocabulary, results: seq<DetectionResult>): (r: Result<seq<Label>, int>)
    ensures LookedUp(vocab, AllBoxes(results), r)
  {
    if results == [] then Success([])
    else
      LookedUpAppend(vocab, results[0].boxes, AllBoxes(results[1..]),
                     LookupLabels(vocab, results[0].boxes), CollectLabels(vocab, results[1..]));
      Then(LookupLabels(vocab, results[0].boxes), CollectLabels(vocab, results[1..]))
  }

  /** Number of occurrences of `l` in `names`. */
  function Count(names: seq<Label>, l: Label): (n: nat)
    ensures n <= |names|
    ensures n == 0 <==> l !in names
  {
    if names == [] then 0 else (if names[0] == l then 1 else 0) + Count(names[1..], l)
  }

  /** `Count` is the multiplicity of the label in the list viewed as a multiset. */
  lemma {:induction false} CountIsMultiplicity(names: seq<Label>, l: Label)
    ensures Count(names, l) == multiset(names)[l]
  {
    if names != [] {
      CountIsMultiplicity(names[1..], l);
      assert names == [names[0]] + names[1..];
    }
  }

  /** `m` is a dominant label: it occurs in `names` and no label occurs more often. */
  ghost predicate IsMode(names: seq<Label>, m: Label)
  {
    && m in names
    && forall x :: x in names ==> Count(names, x) <= Count(names, m)
  }

  /**
   A dominant label of a non-empty list. Which of several equally frequent
   labels is returned is left to the body; callers rely only on `IsMode`.
   */
  function Mode(names: seq<Label>): (m: Label)
    requires names != []
    ensures IsMode(names, m)
  {
    if |names| == 1 then
      assert forall x :: x in names ==> x == names[0];
      names[0]
    else
      var rest := Mode(names[1..]);
      var winner := if Count(names, names[0]) > Count(names, rest) then names[0] else rest;
      assert forall x :: x in names && x != names[0] ==> x in names[1..];
      assert forall x :: x in names && x != names[0] ==> Count(names, x) == Count(names[1..], x);
      assert Count(names, rest) >= Count(names[1..], rest);
      winner
  }

  /** A label that strictly outnumbers every other label of the list is the dominant one. */
  lemma StrictWinnerIsMode(names: seq<Label>, l: Label)
    requires l in names
    requires forall x :: x in names && x != l ==> Count(names, x) < Count(names, l)
    ensures Mode(names) == l
  {
  }

  /** A batch in which every entry is the same label has that label as its dominant one. */
  lemma UniformBatchMode(names: seq<Label>, l: Label)
    requires names != []
    requires forall i :: 0 <= i < |names| ==> names[i] == l
    ensures Mode(names) == l
  {
    assert names[0] == l;
    StrictWinnerIsMode(names, l);
  }
}
