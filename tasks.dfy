/**
  `local_search` (rapidctl/cli/tasks.py): find a locally stored image by
  one of its tags. The images are what the session's `list_images` returns,
  passed in as a value.
*/
module Tasks {
  import opened Wrappers

  /** A listed image: its short identifier and its tags (`name:tag` strings). */
  datatype Image = Image(shortId: string, tags: seq<string>)

  /** Whether the image at index `i` carries `container` as one of its tags, verbatim. */
  predicate Matches(images: seq<Image>, i: int, container: string)
  {
    0 <= i < |images| && container in images[i].tags
  }

  /** The index of the first image carrying `container`, if any. */
  function FirstMatch(images: seq<Image>, container: string): (r: Option<nat>)
    ensures r.None? <==> forall i :: 0 <= i < |images| ==> !Matches(images, i, container)
    ensures r.Some? ==> Matches(images, r.value, container)
    ensures r.Some? ==> forall j :: 0 <= j < r.value ==> !Matches(images, j, container)
  {
    if images == [] then None
    else if container in images[0].tags then
      assert Matches(images, 0, container);
      Some(0)
    else
      assert !Matches(images, 0, container);
      assert forall i :: 1 <= i < |images| ==> (Matches(images, i, container) <==> Matches(images[1..], i - 1, container));
      match FirstMatch(images[1..], container)
      case None => None
      case Some(k) =>
        assert images[1..][k] == images[k + 1];
        assert Matches(images, k + 1, container);
        Some(k + 1)
  }

  /**
    The scan of `local_search`: the short id of the first image tagged `container`, or `None`.
    The reference is `None` when the validator rejected it; `None in image.tags` is false for
    a list of strings, so the scan then runs through every image and finds nothing.
  */
  method LocalSearch(images: seq<Image>, container: Option<string>) returns (r: Option<string>)
    ensures container.None? ==> r.None?
    ensures r.None? <==> forall i :: 0 <= i < |images| ==>
      !(container.Some? && container.value in images[i].tags)
    ensures r.Some? ==> container.Some?
    ensures r.Some? ==>
      exists i :: 0 <= i < |images| && images[i].shortId == r.value &&
        container.value in images[i].tags && forall j :: 0 <= j < i ==> container.value !in images[j].tags
    ensures r == match container
      case None => None
      case Some(c) => (match FirstMatch(images, c)
        case None => None
        case Some(i) => Some(images[i].shortId))
  {
    var i := 0;
    while i < |images|
      invariant 0 <= i <= |images|
      invariant forall j :: 0 <= j < i ==> !(container.Some? && container.value in images[j].tags)
    {
      if container.Some? && container.value in images[i].tags {
        FirstIsUnique(images, container.value, i);
        return Some(images[i].shortId);
      }
      i := i + 1;
    }
    if container.Some? {
      assert forall j :: 0 <= j < |images| ==> !Matches(images, j, container.value);
    }
    return None;
  }

  /** Any matching index with no match before it is the one `FirstMatch` finds. */
  lemma FirstIsUnique(images: seq<Image>, container: string, i: nat)
    requires Matches(images, i, container)
    requires forall j :: 0 <= j < i ==> !Matches(images, j, container)
    ensures FirstMatch(images, container) == Some(i)
  {
  }

  /** Appending images never changes an earlier match. */
  lemma {:induction false} FirstMatchAppend(images: seq<Image>, more: seq<Image>, container: string)
    requires FirstMatch(images, container).Some?
    ensures FirstMatch(images + more, container) == FirstMatch(images, container)
  {
    var i := FirstMatch(images, container).value;
    assert (images + more)[i] == images[i];
    forall j | 0 <= j < i ensures !Matches(images + more, j, container) {
      assert (images + more)[j] == images[j];
      assert !Matches(images, j, container);
    }
    FirstIsUnique(images + more, container, i);
  }

  /** Tags are compared whole: a tag that only starts with the query does not match. */
  lemma ExactTagMatch(images: seq<Image>)
    requires images == [Image("abc123", ["repo:1.0.0"])]
    ensures FirstMatch(images, "repo:1.0") == None
    ensures FirstMatch(images, "repo:1.0.0") == Some(0)
  {
    assert "repo:1.0" != "repo:1.0.0" by {
      assert |"repo:1.0"| != |"repo:1.0.0"|;
    }
    assert !Matches(images, 0, "repo:1.0");
  }
}
