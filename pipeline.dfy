/** The `process` command end to end (run.py lines 149-196): scan, set up
    the client, classify every image, collect the detections in the order
    they complete, and organise the images by number. The requests run on a
    thread pool, so the detections arrive in an order nothing controls: the
    model takes that order as a parameter, any arrangement of the scanned
    paths. The outcome of each image's request is a function of its path. */
module Pipeline {
  import opened Text
  import opened Response
  import opened Classify
  import opened Scan
  import opened Aggregate

  /** How a run ends. */
  datatype RunOutcome =
    | NoImageFiles          // the scan found nothing; no client is set up
    | ClientSetupFailed     // the API client could not be constructed
    | NothingToOrganize     // no number of the right length was detected
    | Organized(folders: map<string, set<string>>)  // per number, the images copied into its folder

  /** The detections in completion order. */
  function Detections(completed: seq<string>, outcome: string -> Outcome): (ds: seq<Detection>)
    ensures |ds| == |completed|
    ensures forall k :: 0 <= k < |ds| ==> ds[k] == ClassifyImage(completed[k], outcome(completed[k]))
  {
    seq(|completed|, k requires 0 <= k < |completed| => ClassifyImage(completed[k], outcome(completed[k])))
  }

  /** The organising step: nothing to organise for an empty index,
      otherwise one folder per key, holding `set(images)`, whose size is the
      count reported for that key. */
  function Organize(index: Index): (run: RunOutcome)
    ensures run.NothingToOrganize? <==> index == map[]
    ensures run.NothingToOrganize? || run.Organized?
    ensures run.Organized? ==> run.folders.Keys == index.Keys
    ensures run.Organized? ==> forall number :: number in index ==>
      run.folders[number] == Elements(index[number]) && |run.folders[number]| == DistinctCount(index, number)
  {
    if index == map[] then NothingToOrganize
    else Organized(map number | number in index :: Elements(index[number]))
  }

  /** What a run does, as a function of the directory listing, whether the
      client can be constructed, each image's outcome and the completion
      order. */
  function Run(entries: seq<Entry>, clientReady: bool, outcome: string -> Outcome, completed: seq<string>): (run: RunOutcome)
    ensures run.NoImageFiles? <==> ImagePaths(entries) == []
    ensures run.ClientSetupFailed? <==> ImagePaths(entries) != [] && !clientReady
    ensures run.Organized? ==> forall number :: number in run.folders ==> ValidLength(number) && run.folders[number] != {}
  {
    if ImagePaths(entries) == [] then NoImageFiles
    else if !clientReady then ClientSetupFailed
    else
      var results := Detections(completed, outcome);
      CollectedKeys(results);
      Organize(Collected(results))
  }

  /** `process`, step by step. */
  method Process(entries: seq<Entry>, clientReady: bool, outcome: string -> Outcome, completed: seq<string>)
    returns (run: RunOutcome)
    requires multiset(completed) == multiset(ImagePaths(entries))
    ensures run == Run(entries, clientReady, outcome, completed)
  {
    var files := ScanDirectory(entries);
    if |files| == 0 {
      return NoImageFiles;
    }
    if !clientReady {
      return ClientSetupFailed;
    }
    var results: seq<Detection> := [];
    for k := 0 to |completed|
      invariant results == Detections(completed[..k], outcome)
    {
      var filePath := completed[k];
      results := results + [ClassifyImage(filePath, outcome(filePath))];
    }
    assert completed[..|completed|] == completed;
    var index := CollectDetections(results);
    if index == map[] {
      return NothingToOrganize;
    }
    var folders: map<string, set<string>> := map[];
    var pending := index.Keys;
    while pending != {}
      invariant pending <= index.Keys
      invariant folders.Keys == index.Keys - pending
      invariant forall number :: number in folders ==> folders[number] == Elements(index[number])
      decreases pending
    {
      var number :| number in pending;
      folders := folders[number := Elements(index[number])];
      pending := pending - {number};
    }
    assert folders == map number | number in index :: Elements(index[number]);
    return Organized(folders);
  }

  /** The images whose request listed `number`. */
  ghost function ImagesListing(entries: seq<Entry>, outcome: string -> Outcome, number: string): set<string>
  {
    set p | p in ImagePaths(entries) && number in ClassifyImage(p, outcome(p)).numbers
  }

  lemma ListingOfCompleted(entries: seq<Entry>, outcome: string -> Outcome, completed: seq<string>, number: string)
    requires multiset(completed) == multiset(ImagePaths(entries))
    ensures ListingPaths(Detections(completed, outcome), number) == ImagesListing(entries, outcome, number)
  {
    var ds := Detections(completed, outcome);
    forall p ensures p in completed <==> p in ImagePaths(entries) {
      assert p in completed <==> p in multiset(completed);
      assert p in ImagePaths(entries) <==> p in multiset(ImagePaths(entries));
    }
    forall p | p in ListingPaths(ds, number) ensures p in ImagesListing(entries, outcome, number) {
      var d :| d in ds && number in d.numbers && d.path == p;
      var k :| 0 <= k < |ds| && ds[k] == d;
      assert completed[k] in completed;
    }
    forall p | p in ImagesListing(entries, outcome, number) ensures p in ListingPaths(ds, number) {
      var k :| 0 <= k < |completed| && completed[k] == p;
      assert ds[k] in ds;
    }
  }

  /** The result of a run, whatever order the requests complete in: no
      images gives `NoImageFiles`; a client that cannot be built gives
      `ClientSetupFailed`; otherwise there is one folder for every number of
      3 or 4 characters that some image's request listed, it holds exactly
      the images that listed it, and when there is no such number the run
      reports that there is nothing to organise. */
  lemma RunResult(entries: seq<Entry>, clientReady: bool, outcome: string -> Outcome, completed: seq<string>)
    requires multiset(completed) == multiset(ImagePaths(entries))
    ensures ImagePaths(entries) == [] ==> Run(entries, clientReady, outcome, completed) == NoImageFiles
    ensures ImagePaths(entries) != [] && !clientReady ==>
      Run(entries, clientReady, outcome, completed) == ClientSetupFailed
    ensures ImagePaths(entries) != [] && clientReady ==>
      var run := Run(entries, clientReady, outcome, completed);
      && (run.NothingToOrganize? || run.Organized?)
      && (run.NothingToOrganize? <==>
            forall number :: ValidLength(number) ==> ImagesListing(entries, outcome, number) == {})
      && (run.Organized? ==> forall number ::
            (number in run.folders <==> ValidLength(number) && ImagesListing(entries, outcome, number) != {}))
      && (run.Organized? ==> forall number :: number in run.folders ==>
            run.folders[number] == ImagesListing(entries, outcome, number))
  {
    if ImagePaths(entries) != [] && clientReady {
      var ds := Detections(completed, outcome);
      var index := Collected(ds);
      forall number
        ensures number in index <==> ValidLength(number) && ImagesListing(entries, outcome, number) != {}
        ensures number in index ==> Elements(index[number]) == ImagesListing(entries, outcome, number)
      {
        CollectedBuckets(ds, number);
        ListingOfCompleted(entries, outcome, completed, number);
      }
      if index == map[] {
        forall number | ValidLength(number) ensures ImagesListing(entries, outcome, number) == {} {
          assert number !in index;
        }
      } else {
        var number :| number in index;
        assert ValidLength(number) && ImagesListing(entries, outcome, number) != {};
      }
    }
  }

  /** The completion order never changes the result of a run. */
  lemma RunOrderIrrelevant(entries: seq<Entry>, clientReady: bool, outcome: string -> Outcome,
                           completed: seq<string>, reordered: seq<string>)
    requires multiset(completed) == multiset(ImagePaths(entries))
    requires multiset(reordered) == multiset(ImagePaths(entries))
    ensures Run(entries, clientReady, outcome, completed) == Run(entries, clientReady, outcome, reordered)
  {
    var i1 := Collected(Detections(completed, outcome));
    var i2 := Collected(Detections(reordered, outcome));
    forall number
      ensures number in i1 <==> number in i2
      ensures number in i1 ==> Elements(i1[number]) == Elements(i2[number])
    {
      CollectedBuckets(Detections(completed, outcome), number);
      CollectedBuckets(Detections(reordered, outcome), number);
      ListingOfCompleted(entries, outcome, completed, number);
      ListingOfCompleted(entries, outcome, reordered, number);
    }
    OrganizeSeesOnlySets(i1, i2);
  }

  lemma OrganizeSeesOnlySets(i1: Index, i2: Index)
    requires forall number :: number in i1 <==> number in i2
    requires forall number :: number in i1 ==> Elements(i1[number]) == Elements(i2[number])
    ensures Organize(i1) == Organize(i2)
  {
    assert i1.Keys == i2.Keys;
    if i1 != map[] {
      assert i2 != map[] by {
        var number :| number in i1;
        assert number in i2;
      }
    }
  }

  // ---------------------------------------------------------------------
  // Worked runs
  // ---------------------------------------------------------------------

  /** The reply "12,123,1234,12345" gives four runs, and only "123" and
      "1234" pass the length filter. */
  lemma LengthFilterExample(reply: string, path: string)
    requires reply == "12,123,1234,12345"
    ensures ParseReply(reply) == ["12", "123", "1234", "12345"]
    ensures Collected([ClassifyImage(path, Reply(reply))]) == map["123" := [path], "1234" := [path]]
  {
    ParseFourNumbers(reply);
    FilterFourRuns(path, ParseReply(reply));
  }

  lemma ParseFourNumbers(reply: string)
    requires reply == "12,123,1234,12345"
    ensures ParseReply(reply) == ["12", "123", "1234", "12345"]
  {
    var numbers := ["12", "123", "1234", "12345"];
    assert AreNumbers(numbers) by {
      assert AllDigits(numbers[0]) && AllDigits(numbers[1]);
      assert AllDigits(numbers[2]) && AllDigits(numbers[3]);
    }
    assert JoinCommas(numbers) == reply by {
      assert numbers[1..] == ["123", "1234", "12345"];
      assert numbers[1..][1..] == ["1234", "12345"];
      assert numbers[1..][1..][1..] == ["12345"];
    }
    CommaListRoundTrip(numbers);
  }

  lemma FilterFourRuns(path: string, numbers: seq<string>)
    requires numbers == ["12", "123", "1234", "12345"]
    ensures Collected([Detection(path, numbers)]) == map["123" := [path], "1234" := [path]]
  {
    var ds := [Detection(path, numbers)];
    assert ds[..0] == [];
    assert numbers[..3] == ["12", "123", "1234"];
    assert numbers[..3][..2] == ["12", "123"];
    assert numbers[..3][..2][..1] == ["12"];
    assert RecordAll(map[], path, ["12"]) == map[] by { assert ["12"][..0] == []; }
    assert [] + [path] == [path];
    assert RecordAll(map[], path, ["12", "123"]) == map["123" := [path]];
    var three := RecordAll(map[], path, ["12", "123", "1234"]);
    assert three == map["123" := [path], "1234" := [path]] by {
      assert ["12", "123", "1234"][..2] == ["12", "123"];
      assert Bucket(map["123" := [path]], "1234") == [];
    }
    assert RecordAll(map[], path, numbers) == three;
    assert Collected(ds) == RecordAll(map[], path, numbers);
  }

  /** Three supported images: A replies "123,456", B replies "none", C's
      request fails, and they complete in the order C, A, B. Two folders
      result, each holding A alone. */
  lemma ThreeImageRun(a: Entry, b: Entry, c: Entry, outcome: string -> Outcome, completed: seq<string>)
    requires IsSupportedImage(a) && IsSupportedImage(b) && IsSupportedImage(c)
    requires outcome(a.path) == Reply("123,456")
    requires outcome(b.path) == Reply("none")
    requires outcome(c.path).ApiFailure?
    requires completed == [c.path, a.path, b.path]
    ensures Run([a, b, c], true, outcome, completed) == Organized(map["123" := {a.path}, "456" := {a.path}])
  {
    ScanOne(a);
    ScanThree(a, b, c);
    var ds := Detections(completed, outcome);
    ParseTwoNumbers(outcome(a.path).content);
    NoneReply(outcome(b.path).content);
    DetectThree(a.path, b.path, c.path, outcome, completed, ["123", "456"]);
    CollectThree(a.path, b.path, c.path, ds);
    OrganizeThree(a.path, Collected(ds));
  }

  /** The replies of the sample run below: A answers "123,456", B answers
      "none" and every other request fails with an API error. */
  function SampleOutcome(path: string): Outcome
  {
    if path == "d/A.jpg" then Reply("123,456")
    else if path == "d/B.jpg" then Reply("none")
    else ApiFailure("rate limit exceeded")
  }

  /** The three-image run for real files: "A.jpg", "B.jpg" and "C.jpg" in
      directory "d" meet every requirement of `ThreeImageRun`. */
  lemma SampleThreeImageRun(a: Entry, b: Entry, c: Entry)
    requires a == Entry("A.jpg", "d/A.jpg", true)
    requires b == Entry("B.jpg", "d/B.jpg", true)
    requires c == Entry("C.jpg", "d/C.jpg", true)
    ensures Run([a, b, c], true, SampleOutcome, [c.path, a.path, b.path]) ==
      Organized(map["123" := {"d/A.jpg"}, "456" := {"d/A.jpg"}])
  {
    JpgKept(a);
    JpgKept(b);
    JpgKept(c);
    SampleReplies(a.path, b.path, c.path);
    ThreeImageRun(a, b, c, SampleOutcome, [c.path, a.path, b.path]);
  }

  lemma JpgKept(e: Entry)
    requires e.isFile && |e.name| == 5 && 'A' <= e.name[0] <= 'Z'
    requires e.name[1..] == ".jpg"
    ensures IsSupportedImage(e)
  {
    assert Lower(".jpg") == ".jpg";
    assert e.name == e.name[..1] + e.name[1..];
    SupportedExtensionKept(e, e.name[..1], e.name[1..]);
  }

  lemma SampleReplies(pa: string, pb: string, pc: string)
    requires pa == "d/A.jpg" && pb == "d/B.jpg" && pc == "d/C.jpg"
    ensures SampleOutcome(pa) == Reply("123,456")
    ensures SampleOutcome(pb) == Reply("none")
    ensures SampleOutcome(pc).ApiFailure?
  {
    assert pb[2] != pa[2];
    assert pc[2] != pa[2] && pc[2] != pb[2];
  }

  lemma DetectThree(pa: string, pb: string, pc: string, outcome: string -> Outcome, completed: seq<string>,
                    numbers: seq<string>)
    requires outcome(pa).Reply? && ParseReply(outcome(pa).content) == numbers
    requires outcome(pb).Reply? && ParseReply(outcome(pb).content) == []
    requires !outcome(pc).Reply?
    requires completed == [pc, pa, pb]
    ensures Detections(completed, outcome) == [Detection(pc, []), Detection(pa, numbers), Detection(pb, [])]
  {
    DetectionsOfThree(pc, pa, pb, outcome);
    assert ClassifyImage(pc, outcome(pc)) == Detection(pc, []);
    assert ClassifyImage(pa, outcome(pa)) == Detection(pa, numbers);
    assert ClassifyImage(pb, outcome(pb)) == Detection(pb, []);
  }

  lemma DetectionsOfThree(x: string, y: string, z: string, outcome: string -> Outcome)
    ensures Detections([x, y, z], outcome) ==
      [ClassifyImage(x, outcome(x)), ClassifyImage(y, outcome(y)), ClassifyImage(z, outcome(z))]
  {
    var ds := Detections([x, y, z], outcome);
    assert ds[0] == ClassifyImage(x, outcome(x));
    assert ds[1] == ClassifyImage(y, outcome(y));
    assert ds[2] == ClassifyImage(z, outcome(z));
  }

  lemma OrganizeThree(pa: string, index: Index)
    requires index == map["123" := [pa], "456" := [pa]]
    ensures Organize(index) == Organized(map["123" := {pa}, "456" := {pa}])
  {
    assert "123" in index;
    assert Elements([pa]) == {pa};
    var folders := map number | number in index :: Elements(index[number]);
    assert folders.Keys == {"123", "456"};
    assert folders == map["123" := {pa}, "456" := {pa}];
  }

  lemma ScanThree(a: Entry, b: Entry, c: Entry)
    ensures ImagePaths([a, b, c]) == ImagePaths([a]) + ImagePaths([b]) + ImagePaths([c])
  {
    ImagePathsOfConcat([a], [b]);
    ImagePathsOfConcat([a, b], [c]);
    assert [a] + [b] == [a, b];
    assert [a, b] + [c] == [a, b, c];
  }

  lemma ScanOne(e: Entry)
    requires IsSupportedImage(e)
    ensures ImagePaths([e]) == [e.path]
  {
    assert [e][..0] == [];
  }

  lemma ParseTwoNumbers(reply: string)
    requires reply == "123,456"
    ensures ParseReply(reply) == ["123", "456"]
  {
    var numbers := ["123", "456"];
    assert AreNumbers(numbers) by {
      assert AllDigits(numbers[0]) && AllDigits(numbers[1]);
    }
    assert JoinCommas(numbers) == reply by {
      assert numbers[1..] == ["456"];
    }
    CommaListRoundTrip(numbers);
  }

  lemma CollectThree(pa: string, pb: string, pc: string, ds: seq<Detection>)
    requires ds == [Detection(pc, []), Detection(pa, ["123", "456"]), Detection(pb, [])]
    ensures Collected(ds) == map["123" := [pa], "456" := [pa]]
  {
    assert ds[..2][..1][..0] == [];
    assert ds[..2][..1] == [ds[0]];
    assert ds[..2] == [ds[0], ds[1]];
    assert Collected(ds[..1]) == map[];
    assert ["123", "456"][..1][..0] == [];
    assert ["123", "456"][..1] == ["123"];
    assert [] + [pa] == [pa];
    assert RecordAll(map[], pa, ["123"]) == map["123" := [pa]];
    assert Bucket(map["123" := [pa]], "456") == [];
    assert RecordAll(map[], pa, ["123", "456"]) == map["123" := [pa], "456" := [pa]];
    assert Collected(ds[..2]) == map["123" := [pa], "456" := [pa]];
  }
}
