/** The image packager: uploaded images are sorted by name into box,
    landscape and portrait art; landscape and portrait art is compressed,
    box art is kept as it is, and everything is written to one zip archive
    under `WebpName` of its name: every case-sensitive `.png` replaced by
    `.webp`, other names unchanged. The compression service is a
    parameter. */
module Compressor {
  import opened Wrappers
  import opened Text
  import opened Files

  datatype Group = BoxArt | LandscapeArt | PortraitArt

  const BoxWord := "box"
  const LandscapeWord := "landscape"
  const PortraitWord := "portrait"
  const PngSuffix := ".png"
  const WebpSuffix := ".webp"

  /** The group a file name falls in: the first of box, landscape and
      portrait whose word the lower-cased name contains; none when it
      contains none of them. */
  function Classify(name: string): Option<Group> {
    var n := Lower(name);
    if Contains(n, BoxWord) then Some(BoxArt)
    else if Contains(n, LandscapeWord) then Some(LandscapeArt)
    else if Contains(n, PortraitWord) then Some(PortraitArt)
    else None
  }

  /** The uploads of one group, in upload order. */
  function InGroup(files: seq<Upload>, g: Group): (r: seq<Upload>)
    ensures |r| <= |files|
  {
    if |files| == 0 then []
    else
      var n := |files| - 1;
      var r := InGroup(files[..n], g);
      if Classify(files[n].name) == Some(g) then r + [files[n]] else r
  }

  /** The uploads that fall in no group, in upload order. */
  function Unclassified(files: seq<Upload>): (r: seq<Upload>)
    ensures |r| <= |files|
  {
    if |files| == 0 then []
    else
      var n := |files| - 1;
      var r := Unclassified(files[..n]);
      if Classify(files[n].name).None? then r + [files[n]] else r
  }

  /** The name an entry is written under: every `.png` replaced by `.webp`,
      case-sensitively, the rest of the name kept as uploaded. */
  function WebpName(name: string): string {
    Replace(name, PngSuffix, WebpSuffix)
  }

  // ----- properties of the grouping -----

  /** An upload is in a group exactly when it was uploaded and its
      lower-cased name contains the group's word and none of the words
      checked before it. */
  lemma {:induction false} InGroupMembers(files: seq<Upload>, u: Upload)
    ensures u in InGroup(files, BoxArt) <==> u in files && Contains(Lower(u.name), BoxWord)
    ensures u in InGroup(files, LandscapeArt) <==>
      u in files && !Contains(Lower(u.name), BoxWord) && Contains(Lower(u.name), LandscapeWord)
    ensures u in InGroup(files, PortraitArt) <==>
      u in files && !Contains(Lower(u.name), BoxWord) && !Contains(Lower(u.name), LandscapeWord)
        && Contains(Lower(u.name), PortraitWord)
    ensures u in Unclassified(files) <==>
      u in files && !Contains(Lower(u.name), BoxWord) && !Contains(Lower(u.name), LandscapeWord)
        && !Contains(Lower(u.name), PortraitWord)
  {
    if |files| > 0 {
      var n := |files| - 1;
      InGroupMembers(files[..n], u);
      assert files == files[..n] + [files[n]];
      assert u in files <==> u in files[..n] || u == files[n];
    }
  }

  /** Every upload lands in exactly one of the three groups or is dropped:
      together the groups and the dropped uploads are the uploads, so the
      groups hold as many files as were classified. */
  lemma GroupsPartition(files: seq<Upload>)
    ensures multiset(InGroup(files, LandscapeArt) + InGroup(files, PortraitArt) + InGroup(files, BoxArt))
      + multiset(Unclassified(files)) == multiset(files)
  {
    GroupCounts(files);
  }

  /** The groups hold as many uploads as were classified. */
  lemma ClassifiedCount(files: seq<Upload>)
    ensures |InGroup(files, LandscapeArt)| + |InGroup(files, PortraitArt)| + |InGroup(files, BoxArt)|
      + |Unclassified(files)| == |files|
  {
    var L, P, B, U := InGroup(files, LandscapeArt), InGroup(files, PortraitArt), InGroup(files, BoxArt), Unclassified(files);
    GroupsPartition(files);
    assert |multiset(L + P + B) + multiset(U)| == |multiset(files)|;
  }

  lemma {:induction false} GroupCounts(files: seq<Upload>)
    ensures multiset(InGroup(files, LandscapeArt)) + multiset(InGroup(files, PortraitArt))
      + multiset(InGroup(files, BoxArt)) + multiset(Unclassified(files)) == multiset(files)
  {
    if |files| > 0 {
      var n := |files| - 1;
      var init, f := files[..n], files[n];
      GroupCounts(init);
      assert multiset(files) == multiset(init) + multiset{f} by {
        assert files == init + [f];
      }
      var L, P, B, U := InGroup(files, LandscapeArt), InGroup(files, PortraitArt), InGroup(files, BoxArt), Unclassified(files);
      var l, p, b, u := InGroup(init, LandscapeArt), InGroup(init, PortraitArt), InGroup(init, BoxArt), Unclassified(init);
      match Classify(f.name)
      case None =>
        assert L == l && P == p && B == b && U == u + [f];
      case Some(LandscapeArt) =>
        assert L == l + [f] && P == p && B == b && U == u;
      case Some(PortraitArt) =>
        assert L == l && P == p + [f] && B == b && U == u;
      case Some(BoxArt) =>
        assert L == l && P == p && B == b + [f] && U == u;
    }
  }

  // ----- entry names -----

  /** A name without `.png` is written unchanged; in particular an upper-case
      `.PNG` is kept. */
  lemma WebpNameWithoutPng(name: string)
    requires !Contains(name, PngSuffix)
    ensures WebpName(name) == name
  {
    ReplaceAbsent(name, PngSuffix, WebpSuffix);
  }

  /** A name that ends in its only `.png` gets the `.webp` extension. */
  lemma WebpOfPng(stem: string)
    requires !Contains(stem, PngSuffix)
    ensures WebpName(stem + PngSuffix) == stem + WebpSuffix
  {
    var t := stem + PngSuffix;
    forall i | 0 <= i < |stem| ensures !OccursAt(t, PngSuffix, i) {
      if i + 4 <= |stem| {
        assert t[i..i + 4] == stem[i..i + 4];
        assert !OccursAt(stem, PngSuffix, i);
      } else {
        var d := |stem| - i;
        assert t[|stem|] == '.' && PngSuffix[d] != '.';
        assert t[i..i + 4][d] != PngSuffix[d];
      }
    }
    ReplaceAbsent(stem, PngSuffix, WebpSuffix);
    ReplaceAppend(stem, PngSuffix, WebpSuffix);
  }

  /** The renaming rewrites every `.png` and nothing else: a name is its
      `.png`-free pieces joined by `.png`, and the name written is the same
      pieces joined by `.webp`. */
  lemma WebpNamePieces(name: string)
    ensures var pieces := Split(name, PngSuffix);
      && name == Join(pieces, PngSuffix)
      && (forall m :: 0 <= m < |pieces| ==> !Contains(pieces[m], PngSuffix))
      && WebpName(name) == Join(pieces, WebpSuffix)
  {
    assert name[0..] == name;
    ReplaceFrom(name, PngSuffix, WebpSuffix, 0);
    JoinSplit(name, PngSuffix, 0);
    SplitPiecesClean(name, PngSuffix, 0);
  }

  // ----- packaging -----

  /** `process_images`: the archive holds the landscape files, then the
      portrait files, both compressed, then the box files as uploaded, each
      group in upload order and each entry under `WebpName` of its name; the
      uploads that fall in no group are left out. */
  method ProcessImages(files: seq<Upload>, compress: Bytes -> Bytes) returns (archive: Archive)
    ensures var land := InGroup(files, LandscapeArt);
      var port := InGroup(files, PortraitArt);
      var box := InGroup(files, BoxArt);
      && |archive| == |land| + |port| + |box|
      && (forall i :: 0 <= i < |land| ==> archive[i] == (WebpName(land[i].name), compress(land[i].data)))
      && (forall i :: 0 <= i < |port| ==>
            archive[|land| + i] == (WebpName(port[i].name), compress(port[i].data)))
      && (forall i :: 0 <= i < |box| ==>
            archive[|land| + |port| + i] == (WebpName(box[i].name), box[i].data))
    ensures |archive| + |Unclassified(files)| == |files|
  {
    var box, landscape, portrait := SortUploads(files);
    archive := Package(landscape, portrait, box, compress);
    ClassifiedCount(files);
  }

  /** The rest of `process_images` once the uploads are sorted. */
  method Package(landscape: seq<Upload>, portrait: seq<Upload>, box: seq<Upload>, compress: Bytes -> Bytes)
    returns (archive: Archive)
    ensures |archive| == |landscape| + |portrait| + |box|
    ensures forall i :: 0 <= i < |landscape| ==>
      archive[i] == (WebpName(landscape[i].name), compress(landscape[i].data))
    ensures forall i :: 0 <= i < |portrait| ==>
      archive[|landscape| + i] == (WebpName(portrait[i].name), compress(portrait[i].data))
    ensures forall i :: 0 <= i < |box| ==>
      archive[|landscape| + |portrait| + i] == (WebpName(box[i].name), box[i].data)
  {
    var compressed := CompressEach(landscape + portrait, compress);
    var ok := KeepEach(compressed, box);
    archive := Rename(ok);
    var nl, np := |landscape|, |portrait|;
    forall i | 0 <= i < nl
      ensures archive[i] == (WebpName(landscape[i].name), compress(landscape[i].data))
    {
      assert ok[i] == compressed[i];
      assert (landscape + portrait)[i] == landscape[i];
    }
    forall i | 0 <= i < np
      ensures archive[nl + i] == (WebpName(portrait[i].name), compress(portrait[i].data))
    {
      assert ok[nl + i] == compressed[nl + i];
      assert (landscape + portrait)[nl + i] == portrait[i];
    }
    forall i | 0 <= i < |box|
      ensures archive[nl + np + i] == (WebpName(box[i].name), box[i].data)
    {
      assert ok[|compressed| + i] == (box[i].name, box[i].data);
    }
  }

  /** The first loop of `process_images`: each upload goes to the first
      group whose word its lower-cased name contains. */
  method SortUploads(files: seq<Upload>) returns (box: seq<Upload>, landscape: seq<Upload>, portrait: seq<Upload>)
    ensures box == InGroup(files, BoxArt)
    ensures landscape == InGroup(files, LandscapeArt)
    ensures portrait == InGroup(files, PortraitArt)
  {
    box, landscape, portrait := [], [], [];
    for i := 0 to |files|
      invariant box == InGroup(files[..i], BoxArt)
      invariant landscape == InGroup(files[..i], LandscapeArt)
      invariant portrait == InGroup(files[..i], PortraitArt)
    {
      assert files[..i + 1][..i] == files[..i];
      var name := Lower(files[i].name);
      if Contains(name, BoxWord) {
        box := box + [files[i]];
      } else if Contains(name, LandscapeWord) {
        landscape := landscape + [files[i]];
      } else if Contains(name, PortraitWord) {
        portrait := portrait + [files[i]];
      }
    }
    assert files[..|files|] == files;
  }

  /** Each upload paired with its name and its compressed contents. */
  method CompressEach(group: seq<Upload>, compress: Bytes -> Bytes) returns (ok: seq<(string, Bytes)>)
    ensures |ok| == |group|
    ensures forall i :: 0 <= i < |group| ==> ok[i] == (group[i].name, compress(group[i].data))
  {
    ok := [];
    for i := 0 to |group|
      invariant |ok| == i
      invariant forall k :: 0 <= k < i ==> ok[k] == (group[k].name, compress(group[k].data))
    {
      ok := ok + [(group[i].name, compress(group[i].data))];
    }
  }

  /** The entries so far followed by each upload under its own name and
      contents. */
  method KeepEach(prefix: seq<(string, Bytes)>, group: seq<Upload>) returns (ok: seq<(string, Bytes)>)
    ensures |ok| == |prefix| + |group|
    ensures forall i :: 0 <= i < |prefix| ==> ok[i] == prefix[i]
    ensures forall i :: 0 <= i < |group| ==> ok[|prefix| + i] == (group[i].name, group[i].data)
  {
    ok := prefix;
    for i := 0 to |group|
      invariant |ok| == |prefix| + i
      invariant forall k :: 0 <= k < |prefix| ==> ok[k] == prefix[k]
      invariant forall k :: 0 <= k < i ==> ok[|prefix| + k] == (group[k].name, group[k].data)
    {
      ok := ok + [(group[i].name, group[i].data)];
    }
  }

  /** Every entry written under `WebpName` of its name (`.png` replaced by
      `.webp`, other names unchanged), contents untouched. */
  method Rename(ok: seq<(string, Bytes)>) returns (archive: Archive)
    ensures |archive| == |ok|
    ensures forall i :: 0 <= i < |ok| ==> archive[i] == (WebpName(ok[i].0), ok[i].1)
  {
    archive := [];
    for i := 0 to |ok|
      invariant |archive| == i
      invariant forall k :: 0 <= k < i ==> archive[k] == (WebpName(ok[k].0), ok[k].1)
    {
      archive := archive + [(WebpName(ok[i].0), ok[i].1)];
    }
  }
}
