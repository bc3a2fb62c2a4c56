/**
 * Finding the freshly built machine image (`find_ami`) and deriving the name
 * of its copy in the other region (`get_ami_name`). The images are the
 * account's images as the provider lists them; their creation dates are
 * given already parsed, as integer seconds.
 */
module Images {
  import opened Text
  import opened Outcomes

  /** An image as listed by the provider, with its creation date parsed to seconds. */
  datatype Image = Image(name: string, imageId: string, creationDate: string, createdAt: int)

  /** What `find_ami` keeps of a matching image. */
  datatype ImageInfo = ImageInfo(name: string, imageId: string, creationDate: string)

  const SECONDS_PER_DAY := 86400

  /** `(now - created).days`: whole days elapsed, rounded down (negative for future dates). */
  function AgeInDays(now: int, createdAt: int): int
  {
    (now - createdAt) / SECONDS_PER_DAY
  }

  /** The recency test `(NOW - created).days < 1`. */
  predicate IsFresh(now: int, createdAt: int)
  {
    AgeInDays(now, createdAt) < 1
  }

  /** An image is fresh exactly when it was created less than 86400 seconds before `now`, or later. */
  lemma FreshIffWithinDay(now: int, createdAt: int)
    ensures IsFresh(now, createdAt) <==> now - createdAt < SECONDS_PER_DAY
    ensures createdAt >= now ==> IsFresh(now, createdAt)
  {
  }

  /** The pattern `find_ami` searches for: the explicit name when it is given and non-empty, else the service. */
  function Pattern(imageName: Option<string>, service: string): (p: string)
    ensures imageName.None? ==> p == service
    ensures imageName.Some? && imageName.value != "" ==> p == imageName.value
    ensures imageName.Some? && imageName.value == "" ==> p == service
  {
    if imageName.Some? && imageName.value != "" then imageName.value else service
  }

  predicate Selected(img: Image, now: int, pattern: string)
  {
    IsFresh(now, img.createdAt) && Contains(img.name, pattern)
  }

  function Info(img: Image): ImageInfo
  {
    ImageInfo(img.name, img.imageId, img.creationDate)
  }

  /** The images that pass both tests, reduced to name, id and date, in input order. */
  function Matches(images: seq<Image>, now: int, pattern: string): seq<ImageInfo>
    decreases |images|
  {
    if images == [] then []
    else
      var last := images[|images| - 1];
      Matches(images[..|images| - 1], now, pattern) + (if Selected(last, now, pattern) then [Info(last)] else [])
  }

  /** `find_ami`: the matches, or exit 2 when there are none. */
  method FindAmi(images: seq<Image>, imageName: Option<string>, service: string, now: int)
    returns (r: Result<seq<ImageInfo>>)
    ensures r.Fail? <==> Matches(images, now, Pattern(imageName, service)) == []
    ensures r.Fail? ==> r.failure == NoAmis
    ensures r.Ok? ==> r.value == Matches(images, now, Pattern(imageName, service))
  {
    var found: seq<ImageInfo> := [];
    for i := 0 to |images|
      invariant found == Matches(images[..i], now, Pattern(imageName, service))
    {
      var image := images[i];
      assert images[..i + 1][..i] == images[..i];
      if imageName.Some? && imageName.value != "" {
        if IsFresh(now, image.createdAt) && Contains(image.name, imageName.value) {
          found := found + [ImageInfo(image.name, image.imageId, image.creationDate)];
        }
      } else {
        if IsFresh(now, image.createdAt) && Contains(image.name, service) {
          found := found + [ImageInfo(image.name, image.imageId, image.creationDate)];
        }
      }
    }
    assert images[..|images|] == images;
    if |found| == 0 {
      return Fail(NoAmis);
    }
    return Ok(found);
  }

  /** Every match comes from an input image that passes both tests. */
  lemma {:induction false} MatchesSound(images: seq<Image>, now: int, pattern: string)
    ensures |Matches(images, now, pattern)| <= |images|
    ensures forall info :: info in Matches(images, now, pattern) ==>
      exists j :: 0 <= j < |images| && Selected(images[j], now, pattern) && Info(images[j]) == info
    decreases |images|
  {
    if images != [] {
      var init := images[..|images| - 1];
      MatchesSound(init, now, pattern);
      forall info | info in Matches(images, now, pattern)
        ensures exists j :: 0 <= j < |images| && Selected(images[j], now, pattern) && Info(images[j]) == info
      {
        if info in Matches(init, now, pattern) {
          var j :| 0 <= j < |init| && Selected(init[j], now, pattern) && Info(init[j]) == info;
          assert images[j] == init[j];
        } else {
          assert Selected(images[|images| - 1], now, pattern) && Info(images[|images| - 1]) == info;
        }
      }
    }
  }

  /** Every input image that passes both tests is among the matches. */
  lemma {:induction false} MatchesComplete(images: seq<Image>, now: int, pattern: string, j: int)
    requires 0 <= j < |images| && Selected(images[j], now, pattern)
    ensures Info(images[j]) in Matches(images, now, pattern)
    decreases |images|
  {
    if j < |images| - 1 {
      var init := images[..|images| - 1];
      assert init[j] == images[j];
      MatchesComplete(init, now, pattern, j);
    }
  }

  /** The matches keep input order: filtering two lists one after the other is filtering their concatenation. */
  lemma {:induction false} MatchesAppend(a: seq<Image>, b: seq<Image>, now: int, pattern: string)
    ensures Matches(a + b, now, pattern) == Matches(a, now, pattern) + Matches(b, now, pattern)
    decreases |b|
  {
    if b == [] {
      assert a + b == a;
    } else {
      var b' := b[..|b| - 1];
      assert (a + b)[..|a + b| - 1] == a + b';
      MatchesAppend(a, b', now, pattern);
    }
  }

  /** `find_ami` exits with code 2 exactly when no image passes both tests. */
  lemma MatchesEmptyIff(images: seq<Image>, now: int, pattern: string)
    ensures Matches(images, now, pattern) == [] <==>
      forall j :: 0 <= j < |images| ==> !Selected(images[j], now, pattern)
  {
    if Matches(images, now, pattern) == [] {
      forall j | 0 <= j < |images| ensures !Selected(images[j], now, pattern) {
        if Selected(images[j], now, pattern) {
          MatchesComplete(images, now, pattern, j);
        }
      }
    } else {
      MatchesSound(images, now, pattern);
    }
  }

  /** An image created one day or more before `now` is never kept. */
  lemma StaleImagesExcluded(images: seq<Image>, now: int, pattern: string)
    requires forall j :: 0 <= j < |images| ==> now - images[j].createdAt >= SECONDS_PER_DAY
    ensures Matches(images, now, pattern) == []
  {
    MatchesEmptyIff(images, now, pattern);
  }

  // ---------------------------------------------------------------------
  // get_ami_name
  // ---------------------------------------------------------------------

  /**
   * `get_ami_name`: for a single image named `a-b-c...`, the copy's name is
   * `b-c`. A list of any other length exits with code 3; a name with fewer
   * than three `-`-separated fields makes the indexing raise.
   */
  function GetAmiName(amis: seq<ImageInfo>): (r: Result<string>)
    ensures |amis| != 1 ==> r == Fail(ManyAmis)
    ensures r.Ok? ==> '-' in r.value
  {
    if |amis| == 1 then
      var fields := Split(amis[0].name, '-');
      if |fields| >= 3 then Ok(fields[1] + "-" + fields[2]) else Fail(Crash)
    else Fail(ManyAmis)
  }

  /** For a name assembled from `-`-free fields, the copy name is the second and third field. */
  lemma {:induction false} GetAmiNameOfFields(info: ImageInfo, fields: seq<string>)
    requires |fields| >= 3 && forall k :: 0 <= k < |fields| ==> '-' !in fields[k]
    requires info.name == Join(fields, '-')
    ensures GetAmiName([info]) == Ok(fields[1] + "-" + fields[2])
  {
    SplitJoin(fields, '-');
  }

  /** A single image's name yields a copy name exactly when it holds at least two `-`; otherwise the indexing raises. */
  lemma GetAmiNameDefinedIff(info: ImageInfo)
    ensures GetAmiName([info]).Ok? <==> Occurrences(info.name, '-') >= 2
    ensures GetAmiName([info]).Fail? ==> GetAmiName([info]) == Fail(Crash)
  {
    SplitLength(info.name, '-');
  }

  /** The name of a fresh image `v-jira-20240101-abc` yields the copy name `jira-20240101`. */
  lemma GetAmiNameExample(info: ImageInfo)
    requires info.name == "v-jira-20240101-abc"
    ensures GetAmiName([info]) == Ok("jira-20240101")
  {
    var fields := ["v", "jira", "20240101", "abc"];
    ExampleNameJoined();
    ExampleFieldsDashFree();
    GetAmiNameOfFields(info, fields);
    assert fields[1] + "-" + fields[2] == "jira-20240101";
  }

  lemma ExampleNameJoined()
    ensures Join(["v", "jira", "20240101", "abc"], '-') == "v-jira-20240101-abc"
  {
  }

  lemma ExampleFieldsDashFree()
    ensures forall k :: 0 <= k < 4 ==> '-' !in ["v", "jira", "20240101", "abc"][k]
  {
  }
}
