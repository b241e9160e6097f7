/** The grouping of images by detected number in `process`: the length
    filter and the `number_to_images` mapping (run.py lines 162-181), and the
    de-duplicated buckets the organising step works from (run.py lines
    184-196). */
module Aggregate {
  import opened Classify

  /** `number_to_images`: each number, with the paths appended to it in the
      order the detections arrived. */
  type Index = map<string, seq<string>>

  /** The length filter applied to every detected number. */
  predicate ValidLength(number: string)
  {
    3 <= |number| <= 4
  }

  /** The list under `number`, empty when the key is absent (the
      `defaultdict(list)` default). */
  function Bucket(index: Index, number: string): seq<string>
  {
    if number in index then index[number] else []
  }

  /** The distinct elements of a list: `set(images)`. */
  function Elements(s: seq<string>): set<string>
  {
    set x | x in s
  }

  /** One step of the inner loop: append the path under the number when its
      length is right, leave the index alone otherwise. */
  function Record(index: Index, path: string, number: string): Index
  {
    if ValidLength(number) then index[number := Bucket(index, number) + [path]] else index
  }

  /** The inner loop over one detection's numbers, in order. */
  function RecordAll(index: Index, path: string, numbers: seq<string>): Index
    decreases |numbers|
  {
    if numbers == [] then index
    else Record(RecordAll(index, path, numbers[..|numbers| - 1]), path, numbers[|numbers| - 1])
  }

  /** The whole results loop, over the detections in completion order. */
  function Collected(results: seq<Detection>): Index
    decreases |results|
  {
    if results == [] then map[]
    else
      var last := results[|results| - 1];
      RecordAll(Collected(results[..|results| - 1]), last.path, last.numbers)
  }

  /** A detection lists a number of the right length. */
  predicate HasValidNumber(numbers: seq<string>)
  {
    exists k :: 0 <= k < |numbers| && ValidLength(numbers[k])
  }

  /** The inner loop of `process` for one detection, with its
      `found_valid_number` flag: the flag is set exactly when some number
      has the right length, and when it is not set the index is unchanged. */
  method RecordDetection(index: Index, path: string, numbers: seq<string>)
    returns (updated: Index, foundValid: bool)
    ensures updated == RecordAll(index, path, numbers)
    ensures foundValid <==> HasValidNumber(numbers)
    ensures !foundValid ==> updated == index
  {
    updated := index;
    foundValid := false;
    for i := 0 to |numbers|
      invariant updated == RecordAll(index, path, numbers[..i])
      invariant foundValid <==> HasValidNumber(numbers[..i])
      invariant !foundValid ==> updated == index
    {
      var number := numbers[i];
      assert numbers[..i + 1][..i] == numbers[..i];
      assert numbers[..i + 1][i] == number;
      if 3 <= |number| <= 4 {
        updated := updated[number := Bucket(updated, number) + [path]];
        foundValid := true;
      }
      assert HasValidNumber(numbers[..i + 1]) <==> HasValidNumber(numbers[..i]) || ValidLength(number) by {
        if HasValidNumber(numbers[..i + 1]) {
          var k :| 0 <= k < i + 1 && ValidLength(numbers[..i + 1][k]);
          if k < i { assert numbers[..i][k] == numbers[..i + 1][k]; }
        }
        if HasValidNumber(numbers[..i]) {
          var k :| 0 <= k < i && ValidLength(numbers[..i][k]);
          assert numbers[..i + 1][k] == numbers[..i][k];
        }
      }
    }
    assert numbers[..|numbers|] == numbers;
  }

  /** The results loop of `process`: a detection with an empty list is
      skipped, every other one goes through `RecordDetection`. */
  method CollectDetections(results: seq<Detection>) returns (index: Index)
    ensures index == Collected(results)
  {
    index := map[];
    for i := 0 to |results|
      invariant index == Collected(results[..i])
    {
      var detection := results[i];
      assert results[..i + 1][..i] == results[..i];
      assert results[..i + 1][i] == detection;
      if |detection.numbers| > 0 {
        var found;
        index, found := RecordDetection(index, detection.path, detection.numbers);
      }
    }
    assert results[..|results|] == results;
  }

  // ---------------------------------------------------------------------
  // What the index holds
  // ---------------------------------------------------------------------

  /** The paths of the detections in `results` that listed `number`. */
  ghost function ListingPaths(results: seq<Detection>, number: string): set<string>
  {
    set d | d in results && number in d.numbers :: d.path
  }

  /** Recording one detection adds a key only for a number of the right
      length that it lists, and adds its path to exactly the buckets of
      those numbers. */
  lemma {:induction false} RecordAllEffect(index: Index, path: string, numbers: seq<string>, number: string)
    ensures number in RecordAll(index, path, numbers) <==>
      number in index || (ValidLength(number) && number in numbers)
    ensures Elements(Bucket(RecordAll(index, path, numbers), number)) ==
      Elements(Bucket(index, number)) + (if ValidLength(number) && number in numbers then {path} else {})
    decreases |numbers|
  {
    if numbers != [] {
      var init := numbers[..|numbers| - 1];
      var last := numbers[|numbers| - 1];
      RecordAllEffect(index, path, init, number);
      assert numbers == init + [last];
      assert number in numbers <==> number in init || number == last;
      var before := RecordAll(index, path, init);
      if ValidLength(last) && last == number {
        assert Elements(Bucket(before, number) + [path]) == Elements(Bucket(before, number)) + {path};
      }
    }
  }

  lemma ListingPathsOfSnoc(results: seq<Detection>, d: Detection, number: string)
    ensures ListingPaths(results + [d], number) ==
      ListingPaths(results, number) + (if number in d.numbers then {d.path} else {})
  {
    assert forall x :: x in results + [d] <==> x in results || x == d;
  }

  /** After the results loop, a number is a key exactly when it has the
      right length and some detection listed it, and the distinct paths
      under it are exactly the paths of the detections that listed it. */
  lemma {:induction false} CollectedBuckets(results: seq<Detection>, number: string)
    ensures number in Collected(results) <==> ValidLength(number) && ListingPaths(results, number) != {}
    ensures Elements(Bucket(Collected(results), number)) ==
      if ValidLength(number) then ListingPaths(results, number) else {}
    decreases |results|
  {
    if results != [] {
      var init := results[..|results| - 1];
      var last := results[|results| - 1];
      CollectedBuckets(init, number);
      RecordAllEffect(Collected(init), last.path, last.numbers, number);
      assert results == init + [last];
      ListingPathsOfSnoc(init, last, number);
    }
  }

  /** Pointwise: an image is in a number's bucket exactly when one of its
      detections listed that number and the number has 3 or 4 characters. */
  lemma PathInBucket(results: seq<Detection>, number: string, path: string)
    ensures path in Bucket(Collected(results), number) <==>
      ValidLength(number) && exists d :: d in results && d.path == path && number in d.numbers
  {
    CollectedBuckets(results, number);
    assert path in Bucket(Collected(results), number) <==> path in Elements(Bucket(Collected(results), number));
  }

  /** Every key of the index has 3 or 4 characters and a non-empty list. */
  lemma CollectedKeys(results: seq<Detection>)
    ensures forall number :: number in Collected(results) ==>
      ValidLength(number) && Collected(results)[number] != []
  {
    forall number | number in Collected(results)
      ensures ValidLength(number) && Collected(results)[number] != []
    {
      CollectedBuckets(results, number);
    }
  }

  /** The completion order does not matter: any two orders of the same
      detections give the same keys and the same distinct paths under each. */
  lemma OrderIrrelevant(results: seq<Detection>, reordered: seq<Detection>)
    requires multiset(results) == multiset(reordered)
    ensures Collected(results).Keys == Collected(reordered).Keys
    ensures forall number ::
      Elements(Bucket(Collected(results), number)) == Elements(Bucket(Collected(reordered), number))
  {
    forall number
      ensures number in Collected(results) <==> number in Collected(reordered)
      ensures Elements(Bucket(Collected(results), number)) == Elements(Bucket(Collected(reordered), number))
    {
      assert forall d :: d in results <==> d in reordered by {
        forall d ensures d in results <==> d in reordered {
          assert d in results <==> d in multiset(results);
          assert d in reordered <==> d in multiset(reordered);
        }
      }
      assert ListingPaths(results, number) == ListingPaths(reordered, number);
      CollectedBuckets(results, number);
      CollectedBuckets(reordered, number);
    }
  }

  /** A detection that arrives again, or repeats a number it already
      listed, leaves every set of distinct paths as it was. */
  lemma RepeatsAreIdempotent(results: seq<Detection>, d: Detection, number: string)
    requires d in results
    ensures Elements(Bucket(Collected(results + [d]), number)) == Elements(Bucket(Collected(results), number))
    ensures Collected(results + [d]).Keys == Collected(results).Keys
  {
    forall n
      ensures n in Collected(results + [d]) <==> n in Collected(results)
      ensures Elements(Bucket(Collected(results + [d]), n)) == Elements(Bucket(Collected(results), n))
    {
      CollectedBuckets(results, n);
      CollectedBuckets(results + [d], n);
      ListingPathsOfSnoc(results, d, n);
    }
  }

  /** The count reported for a number, `len(set(images))`: at most the
      number of appends, and at least one once anything was appended. */
  function DistinctCount(index: Index, number: string): (n: nat)
    ensures n <= |Bucket(index, number)|
    ensures Bucket(index, number) != [] ==> n >= 1
  {
    var images := Bucket(index, number);
    ElementsNoLarger(images);
    assert images != [] ==> images[0] in Elements(images);
    |Elements(images)|
  }

  lemma {:induction false} ElementsNoLarger(s: seq<string>)
    ensures |Elements(s)| <= |s|
    decreases |s|
  {
    if s != [] {
      var init := s[..|s| - 1];
      ElementsNoLarger(init);
      assert s == init + [s[|s| - 1]];
      assert Elements(s) == Elements(init) + {s[|s| - 1]};
    }
  }

  /** For each key, the reported count is the number of distinct images that
      listed it: at least one, and at most the number of appends made. */
  lemma ReportedCount(results: seq<Detection>, number: string)
    requires number in Collected(results)
    ensures DistinctCount(Collected(results), number) == |ListingPaths(results, number)|
    ensures 1 <= DistinctCount(Collected(results), number) <= |Collected(results)[number]|
  {
    CollectedBuckets(results, number);
  }
}
