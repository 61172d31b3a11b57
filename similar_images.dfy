/** The client-side state of the duplicate-image view: the list of groups the search reported,
    and the deletions the user asks for, one image at a time or every image but the largest of
    each group. The backend call that deletes a file is an outcome given to each operation. */
module SimilarImagesView {
  import opened Wrappers
  import opened Similar

  /** One image scheduled for deletion, with the group it was listed in. */
  datatype Deletion = Deletion(groupId: int, path: string)

  /** The images whose path is not the given one, in order. */
  function Without(images: seq<SimilarImage>, path: string): (r: seq<SimilarImage>)
    decreases |images|
  {
    if images == [] then []
    else
      var init, last := images[..|images| - 1], images[|images| - 1];
      Without(init, path) + (if last.path != path then [last] else [])
  }

  /** Filtering by path keeps exactly the images with another path, in order, and no more. */
  lemma {:induction false} WithoutMembers(images: seq<SimilarImage>, path: string)
    ensures forall x :: x in Without(images, path) <==> x in images && x.path != path
    ensures |Without(images, path)| <= |images|
    decreases |images|
  {
    if images != [] {
      var init, last := images[..|images| - 1], images[|images| - 1];
      WithoutMembers(init, path);
      assert images == init + [last];
    }
  }

  /** Array.find: the position of the first group with the id. */
  function FindGroup(groups: seq<SimilarityResult>, id: int): (k: Option<nat>)
    ensures k.Some? ==> k.value < |groups| && groups[k.value].groupId == id
    ensures k.Some? ==> forall j :: 0 <= j < k.value ==> groups[j].groupId != id
    ensures k.None? ==> forall j :: 0 <= j < |groups| ==> groups[j].groupId != id
    decreases |groups|
  {
    if groups == [] then None
    else if groups[0].groupId == id then Some(0)
    else match FindGroup(groups[1..], id)
      case None => None
      case Some(k) => Some(k + 1)
  }

  /** The groups without those of the id, in order. */
  function DropGroup(groups: seq<SimilarityResult>, id: int): (r: seq<SimilarityResult>)
    decreases |groups|
  {
    if groups == [] then []
    else
      var init, last := groups[..|groups| - 1], groups[|groups| - 1];
      DropGroup(init, id) + (if last.groupId != id then [last] else [])
  }

  lemma {:induction false} DropGroupMembers(groups: seq<SimilarityResult>, id: int)
    ensures forall g :: g in DropGroup(groups, id) <==> g in groups && g.groupId != id
    decreases |groups|
  {
    if groups != [] {
      var init, last := groups[..|groups| - 1], groups[|groups| - 1];
      DropGroupMembers(init, id);
      assert groups == init + [last];
    }
  }

  /** Replacing a group of the id by another of the same id does not change what is left once
      the id is dropped. */
  lemma {:induction false} DropGroupReplaced(groups: seq<SimilarityResult>, k: nat, g: SimilarityResult)
    requires k < |groups| && groups[k].groupId == g.groupId
    ensures DropGroup(groups[k := g], g.groupId) == DropGroup(groups, g.groupId)
    decreases |groups|
  {
    var n := |groups|;
    var init := groups[..n - 1];
    if k < n - 1 {
      assert groups[k := g][..n - 1] == init[k := g];
      DropGroupReplaced(init, k, g);
    } else {
      assert groups[k := g][..n - 1] == init;
    }
  }

  /** The groups with at least two images, in order. */
  function Prune(groups: seq<SimilarityResult>): (r: seq<SimilarityResult>)
    decreases |groups|
  {
    if groups == [] then []
    else
      var init, last := groups[..|groups| - 1], groups[|groups| - 1];
      Prune(init) + (if |last.images| >= 2 then [last] else [])
  }

  /** Pruning keeps exactly the groups of at least two images. */
  lemma {:induction false} PruneMembers(groups: seq<SimilarityResult>)
    ensures forall g :: g in Prune(groups) <==> g in groups && |g.images| >= 2
    decreases |groups|
  {
    if groups != [] {
      var init, last := groups[..|groups| - 1], groups[|groups| - 1];
      PruneMembers(init);
      assert groups == init + [last];
    }
  }

  /** The images at the path are taken out of the first group of the id, as removeImage and
      the deletion loop of removeSmallerImages do. */
  function TakeOut(groups: seq<SimilarityResult>, id: int, path: string): (r: seq<SimilarityResult>)
  {
    match FindGroup(groups, id)
    case None => groups
    case Some(k) => groups[k := groups[k].(images := Without(groups[k].images, path))]
  }

  /** Taking an image out changes only the first group of the id, which loses the images of
      that path and keeps the others in order. */
  lemma TakeOutEffect(groups: seq<SimilarityResult>, id: int, path: string)
    ensures var r := TakeOut(groups, id, path);
      && |r| == |groups|
      && (forall j :: 0 <= j < |groups| ==> r[j].groupId == groups[j].groupId && |r[j].images| <= |groups[j].images|)
      && (forall j :: 0 <= j < |groups| && (FindGroup(groups, id).None? || j != FindGroup(groups, id).value) ==> r[j] == groups[j])
      && (FindGroup(groups, id).Some? ==>
            var k := FindGroup(groups, id).value;
            forall x :: x in r[k].images <==> x in groups[k].images && x.path != path)
  {
    if FindGroup(groups, id).Some? {
      WithoutMembers(groups[FindGroup(groups, id).value].images, path);
    }
  }

  /** removeImage after the backend deleted the file: the image leaves the first group of the
      id; if that group is left with fewer than two images, every group of the id goes. */
  function RemoveImageSpec(groups: seq<SimilarityResult>, id: int, path: string): seq<SimilarityResult>
  {
    match FindGroup(groups, id)
    case None => groups
    case Some(k) =>
      var taken := TakeOut(groups, id, path);
      if |taken[k].images| < 2 then DropGroup(taken, id) else taken
  }

  /** removeImage: with no group of the id nothing changes; when the group keeps two images it
      loses exactly the image and nothing else changes; otherwise the result is the list
      without the groups of the id, in order. */
  lemma RemoveImageEffect(groups: seq<SimilarityResult>, id: int, path: string)
    ensures FindGroup(groups, id).None? ==> RemoveImageSpec(groups, id, path) == groups
    ensures FindGroup(groups, id).Some? ==>
      var k, r := FindGroup(groups, id).value, RemoveImageSpec(groups, id, path);
      if |Without(groups[k].images, path)| < 2 then
        r == DropGroup(groups, id) && forall g :: g in r ==> g.groupId != id
      else
        && |r| == |groups|
        && r[k].groupId == id
        && (forall x :: x in r[k].images <==> x in groups[k].images && x.path != path)
        && forall j :: 0 <= j < |groups| && j != k ==> r[j] == groups[j]
  {
    if FindGroup(groups, id).Some? {
      var k := FindGroup(groups, id).value;
      var g := groups[k].(images := Without(groups[k].images, path));
      TakeOutEffect(groups, id, path);
      if |g.images| < 2 {
        DropGroupReplaced(groups, k, g);
        DropGroupMembers(groups, id);
      }
    }
  }

  // ---------------------------------------------------------------- removeSmallerImages

  /** The first image of the largest size: the head of the images sorted by decreasing size,
      the sort being stable. */
  function Largest(images: seq<SimilarImage>): (r: SimilarImage)
    requires images != []
    decreases |images|
  {
    if |images| == 1 then images[0]
    else
      var rest := Largest(images[1..]);
      if images[0].size >= rest.size then images[0] else rest
  }

  /** The largest image is one of the images and no image is larger. */
  lemma {:induction false} LargestIsMaximal(images: seq<SimilarImage>)
    requires images != []
    ensures Largest(images) in images
    ensures forall x :: x in images ==> x.size <= Largest(images).size
    decreases |images|
  {
    if |images| > 1 {
      LargestIsMaximal(images[1..]);
      assert images == [images[0]] + images[1..];
    }
  }

  /** The deletions of the images of one group other than those at the path of keep. */
  function Others(id: int, images: seq<SimilarImage>, keep: string): (r: seq<Deletion>)
    decreases |images|
  {
    if images == [] then []
    else
      var init, last := images[..|images| - 1], images[|images| - 1];
      Others(id, init, keep) + (if last.path != keep then [Deletion(id, last.path)] else [])
  }

  /** The deletions one group contributes: none for a group of fewer than two images,
      otherwise every image not at the path of its largest one. */
  function GroupDeletions(g: SimilarityResult): seq<Deletion>
  {
    if |g.images| < 2 then [] else Others(g.groupId, g.images, Largest(g.images).path)
  }

  /** toDelete, built group by group. */
  function Schedule(groups: seq<SimilarityResult>): seq<Deletion>
    decreases |groups|
  {
    if groups == [] then []
    else Schedule(groups[..|groups| - 1]) + GroupDeletions(groups[|groups| - 1])
  }

  /** One more image: it is scheduled unless it is at the kept path. */
  lemma OthersStep(id: int, images: seq<SimilarImage>, j: nat, keep: string)
    requires j < |images|
    ensures Others(id, images[..j + 1], keep)
      == Others(id, images[..j], keep) + (if images[j].path != keep then [Deletion(id, images[j].path)] else [])
  {
    assert images[..j + 1][..j] == images[..j];
  }

  /** One more group: its deletions come after those of the groups before it. */
  lemma ScheduleStep(groups: seq<SimilarityResult>, i: nat)
    requires i < |groups|
    ensures Schedule(groups[..i + 1]) == Schedule(groups[..i]) + GroupDeletions(groups[i])
  {
    assert groups[..i + 1][..i] == groups[..i];
  }

  lemma {:induction false} OthersMembers(id: int, images: seq<SimilarImage>, keep: string)
    ensures forall d :: d in Others(id, images, keep) <==> d.groupId == id && d.path != keep && exists x :: x in images && x.path == d.path
    decreases |images|
  {
    if images != [] {
      var init, last := images[..|images| - 1], images[|images| - 1];
      OthersMembers(id, init, keep);
      assert images == init + [last];
      assert forall x :: x in images <==> x in init || x == last;
    }
  }

  /** Every scheduled deletion is an image of a group of at least two images, of that group's
      id, and not at the path of the group's largest image; every such image is scheduled. */
  lemma {:induction false} ScheduleMembers(groups: seq<SimilarityResult>)
    ensures forall d :: d in Schedule(groups) ==>
      exists g :: g in groups && g.groupId == d.groupId && |g.images| >= 2 && d.path != Largest(g.images).path
        && exists x :: x in g.images && x.path == d.path
    ensures forall g, x :: g in groups && |g.images| >= 2 && x in g.images && x.path != Largest(g.images).path ==>
      Deletion(g.groupId, x.path) in Schedule(groups)
    decreases |groups|
  {
    if groups != [] {
      var init, last := groups[..|groups| - 1], groups[|groups| - 1];
      ScheduleMembers(init);
      assert groups == init + [last];
      assert forall g :: g in groups <==> g in init || g == last;
      if |last.images| >= 2 {
        OthersMembers(last.groupId, last.images, Largest(last.images).path);
      }
    }
  }

  /** The deletion loop: each deletion that the backend carries out takes the image out of
      the first group of its id; a failed one changes nothing. */
  function ApplyDeletions(groups: seq<SimilarityResult>, ds: seq<Deletion>, failing: set<string>): seq<SimilarityResult>
    decreases |ds|
  {
    if ds == [] then groups
    else
      var prev := ApplyDeletions(groups, ds[..|ds| - 1], failing);
      var d := ds[|ds| - 1];
      if d.path in failing then prev else TakeOut(prev, d.groupId, d.path)
  }

  /** Carrying out one more deletion: a failing one changes nothing, any other takes its
      image out. */
  lemma ApplyDeletionsStep(groups: seq<SimilarityResult>, ds: seq<Deletion>, i: nat, failing: set<string>)
    requires i < |ds|
    ensures var prev := ApplyDeletions(groups, ds[..i], failing);
      ApplyDeletions(groups, ds[..i + 1], failing)
        == if ds[i].path in failing then prev else TakeOut(prev, ds[i].groupId, ds[i].path)
  {
    assert ds[..i + 1][..i] == ds[..i];
  }

  /** removeSmallerImages when no deletion is under way: the scheduled deletions are carried
      out, then the groups with fewer than two images are dropped. */
  function RemoveSmallerSpec(groups: seq<SimilarityResult>, failing: set<string>): seq<SimilarityResult>
  {
    Prune(ApplyDeletions(groups, Schedule(groups), failing))
  }

  /** Group ids are different. */
  predicate DistinctIds(groups: seq<SimilarityResult>)
  {
    forall i, j :: 0 <= i < j < |groups| ==> groups[i].groupId != groups[j].groupId
  }

  /** The deletions keep the number, order and ids of the groups; each group keeps a part of
      its images; and with different ids, the images of a group whose path was deleted
      successfully are gone. */
  lemma {:induction false} ApplyDeletionsEffect(groups: seq<SimilarityResult>, ds: seq<Deletion>, failing: set<string>)
    requires DistinctIds(groups)
    ensures var r := ApplyDeletions(groups, ds, failing);
      && |r| == |groups|
      && (forall k :: 0 <= k < |groups| ==> r[k].groupId == groups[k].groupId && |r[k].images| <= |groups[k].images|)
      && (forall k, x :: 0 <= k < |groups| && x in r[k].images ==> x in groups[k].images)
      && (forall k, x :: 0 <= k < |groups| && x in r[k].images && x.path !in failing ==> Deletion(groups[k].groupId, x.path) !in ds)
    decreases |ds|
  {
    if ds != [] {
      var init, d := ds[..|ds| - 1], ds[|ds| - 1];
      ApplyDeletionsEffect(groups, init, failing);
      var prev := ApplyDeletions(groups, init, failing);
      assert forall e :: e in ds <==> e in init || e == d by {
        assert ds == init + [d];
      }
      if d.path !in failing {
        TakeOutEffect(prev, d.groupId, d.path);
        var r := TakeOut(prev, d.groupId, d.path);
        forall k, x | 0 <= k < |groups| && x in r[k].images && x.path !in failing
          ensures Deletion(groups[k].groupId, x.path) !in ds
        {
          if FindGroup(prev, d.groupId).Some? && k == FindGroup(prev, d.groupId).value {
            assert x in prev[k].images && x.path != d.path;
          } else {
            assert r[k] == prev[k];
          }
        }
      }
    }
  }

  /** removeSmallerImages, for groups of different ids: every group left has at least two
      images, each of them an image of that group that is either at the path of its largest
      image or one whose deletion failed. */
  lemma RemoveSmallerKeepsLargest(groups: seq<SimilarityResult>, failing: set<string>)
    requires DistinctIds(groups)
    ensures forall g :: g in RemoveSmallerSpec(groups, failing) ==> |g.images| >= 2
    ensures forall g, x :: g in RemoveSmallerSpec(groups, failing) && x in g.images ==>
      exists k ::
        0 <= k < |groups| && groups[k].groupId == g.groupId && x in groups[k].images
        && (x.path == Largest(groups[k].images).path || x.path in failing)
  {
    var ds := Schedule(groups);
    var applied := ApplyDeletions(groups, ds, failing);
    ApplyDeletionsEffect(groups, ds, failing);
    ScheduleMembers(groups);
    PruneMembers(applied);
    forall g, x | g in Prune(applied) && x in g.images
      ensures exists k ::
        0 <= k < |groups| && groups[k].groupId == g.groupId && x in groups[k].images
        && (x.path == Largest(groups[k].images).path || x.path in failing)
    {
      var k :| 0 <= k < |applied| && applied[k] == g;
      assert groups[k] in groups;
    }
  }

  /** The sum of the group sizes. */
  function TotalImages(groups: seq<SimilarityResult>): nat
    decreases |groups|
  {
    if groups == [] then 0 else TotalImages(groups[..|groups| - 1]) + |groups[|groups| - 1].images|
  }

  /** The total adds up over consecutive runs of groups: the total of a list is the sum of the
      totals of its parts, and a single group contributes its image count. */
  lemma {:induction false} TotalImagesConcat(a: seq<SimilarityResult>, b: seq<SimilarityResult>)
    ensures TotalImages(a + b) == TotalImages(a) + TotalImages(b)
    ensures TotalImages([]) == 0
    ensures |b| == 1 ==> TotalImages(b) == |b[0].images|
    decreases |b|
  {
    assert TotalImages([]) == 0;
    if b == [] {
      assert a + b == a;
    } else {
      var init := b[..|b| - 1];
      assert (a + b)[..|a + b| - 1] == a + init;
      assert (a + b)[|a + b| - 1] == b[|b| - 1];
      TotalImagesConcat(a, init);
      if |b| == 1 {
        assert init == [];
      }
    }
  }

  /** When every group has at least two images, there are at least twice as many images as
      groups. */
  lemma {:induction false} TotalImagesAtLeastTwice(groups: seq<SimilarityResult>)
    requires forall g :: g in groups ==> |g.images| >= 2
    ensures TotalImages(groups) >= 2 * |groups|
    decreases |groups|
  {
    if groups != [] {
      var init := groups[..|groups| - 1];
      assert forall g :: g in init ==> g in groups;
      assert groups[|groups| - 1] in groups;
      TotalImagesAtLeastTwice(init);
    }
  }

  class SimilarImages {
    var similarGroups: seq<SimilarityResult>
    var isDeleting: bool

    constructor ()
      ensures similarGroups == [] && !isDeleting
    {
      similarGroups := [];
      isDeleting := false;
    }

    /** removeImage: `deleted` is whether the backend removed the file. */
    method RemoveImage(groupId: int, imagePath: string, deleted: bool)
      modifies this
      ensures similarGroups == if deleted then RemoveImageSpec(old(similarGroups), groupId, imagePath) else old(similarGroups)
      ensures isDeleting == old(isDeleting)
    {
      if !deleted {
        return;
      }
      var found := FindGroup(similarGroups, groupId);
      if found.Some? {
        var k := found.value;
        similarGroups := similarGroups[k := similarGroups[k].(images := Without(similarGroups[k].images, imagePath))];
        if |similarGroups[k].images| < 2 {
          similarGroups := DropGroup(similarGroups, groupId);
        }
      }
    }

    method ClearResults()
      modifies this
      ensures similarGroups == [] && isDeleting == old(isDeleting)
    {
      similarGroups := [];
    }

    function GetTotalGroups(): (n: nat)
      reads this
      ensures n == |similarGroups|
    {
      |similarGroups|
    }

    function GetTotalImages(): (n: nat)
      reads this
      ensures n == TotalImages(similarGroups)
      ensures (forall g :: g in similarGroups ==> |g.images| >= 2) ==> n >= 2 * GetTotalGroups()
    {
      var n := TotalImages(similarGroups);
      assert (forall g :: g in similarGroups ==> |g.images| >= 2) ==> n >= 2 * |similarGroups| by {
        if forall g :: g in similarGroups ==> |g.images| >= 2 {
          TotalImagesAtLeastTwice(similarGroups);
        }
      }
      n
    }

    /** The deleting loop of removeSmallerImages: each scheduled image whose deletion does not
        fail is taken out of its group. */
    method DeleteAll(toDelete: seq<Deletion>, failing: set<string>)
      modifies this
      ensures similarGroups == ApplyDeletions(old(similarGroups), toDelete, failing)
      ensures isDeleting == old(isDeleting)
    {
      var i := 0;
      while i < |toDelete|
        invariant 0 <= i <= |toDelete|
        invariant similarGroups == ApplyDeletions(old(similarGroups), toDelete[..i], failing)
        invariant isDeleting == old(isDeleting)
      {
        var item := toDelete[i];
        ApplyDeletionsStep(old(similarGroups), toDelete, i, failing);
        if item.path !in failing {
          var found := FindGroup(similarGroups, item.groupId);
          if found.Some? {
            var k := found.value;
            similarGroups := similarGroups[k := similarGroups[k].(images := Without(similarGroups[k].images, item.path))];
          }
        }
        i := i + 1;
      }
      assert toDelete[..i] == toDelete;
    }

    /** removeSmallerImages: nothing while a deletion is under way; otherwise the schedule is
      built, carried out one deletion at a time (those whose path is in `failing` fail), the
      groups below two images are dropped, and the flag is cleared. */
    method RemoveSmallerImages(failing: set<string>)
      modifies this
      ensures old(isDeleting) ==> similarGroups == old(similarGroups) && isDeleting
      ensures !old(isDeleting) ==> similarGroups == RemoveSmallerSpec(old(similarGroups), failing) && !isDeleting
    {
      if isDeleting {
        return;
      }
      isDeleting := true;
      var toDelete := CollectDeletions(similarGroups);
      DeleteAll(toDelete, failing);
      similarGroups := Prune(similarGroups);
      isDeleting := false;
    }
  }

  /** The collecting loops of removeSmallerImages. */
  method CollectDeletions(groups: seq<SimilarityResult>) returns (toDelete: seq<Deletion>)
    ensures toDelete == Schedule(groups)
  {
    toDelete := [];
    var i := 0;
    while i < |groups|
      invariant 0 <= i <= |groups|
      invariant toDelete == Schedule(groups[..i])
    {
      ScheduleStep(groups, i);
      toDelete := CollectGroupDeletions(toDelete, groups[i]);
      i := i + 1;
    }
    assert groups[..i] == groups;
  }

  /** The inner loop: every image of a group of at least two other than its largest is added. */
  method CollectGroupDeletions(before: seq<Deletion>, group: SimilarityResult) returns (toDelete: seq<Deletion>)
    ensures toDelete == before + GroupDeletions(group)
  {
    toDelete := before;
    if |group.images| >= 2 {
      var largestImage := Largest(group.images);
      var j := 0;
      while j < |group.images|
        invariant 0 <= j <= |group.images|
        invariant toDelete == before + Others(group.groupId, group.images[..j], largestImage.path)
      {
        var img := group.images[j];
        OthersStep(group.groupId, group.images, j, largestImage.path);
        if img.path != largestImage.path {
          toDelete := toDelete + [Deletion(group.groupId, img.path)];
        }
        j := j + 1;
      }
      assert group.images[..j] == group.images;
    }
  }
}
