/** The provider lookup shown under each fetched launch ticket: the provider
    tags at the end of the ticket title are matched against the provider
    dictionary, the most specific tag first, and each matched provider's
    link and login are shown once; a warning lists the tags when nothing
    matched. */
module ProviderMatch {
  import opened Wrappers
  import opened Text
  import opened Tables
  import opened Providers

  /** What the ticket view shows for the providers. */
  datatype Notice =
    | ProviderLink(url: string)
    | Login(text: string)
    | NoProviderInfo(message: string)

  const TitleSeparator := " - "
  const TagSeparator := "/"
  const WarningPrefix := "No provider info found for: "

  // ----- tags -----

  /** `[p.strip().lower() for p in title.split(" - ")[-1].split("/")]`. */
  function Tags(title: string): (tags: seq<string>)
    ensures |tags| >= 1
  {
    NormalizeEach(Split(LastPiece(title, TitleSeparator), TagSeparator))
  }

  /** The tags are the normalised `/`-pieces of the last `" - "`-piece of the
      title, which holds no `" - "` itself; a title without `" - "` is one
      piece as a whole; every tag is normal and its raw piece holds no `/`. */
  lemma TagsOfTitle(title: string)
    ensures var pieces := Split(title, TitleSeparator);
      Tags(title) == NormalizeEach(Split(pieces[|pieces| - 1], TagSeparator))
    ensures !Contains(LastPiece(title, TitleSeparator), TitleSeparator)
    ensures !Contains(title, TitleSeparator) ==> Tags(title) == NormalizeEach(Split(title, TagSeparator))
    ensures forall i :: 0 <= i < |Tags(title)| ==> IsNormal(Tags(title)[i])
    ensures forall i :: 0 <= i < |Tags(title)| ==> !Contains(Split(LastPiece(title, TitleSeparator), TagSeparator)[i], TagSeparator)
  {
    var last := LastStart(title, TitleSeparator, 0);
    SplitLastPiece(title, TitleSeparator, 0);
    FindContains(title, TitleSeparator);
    LastStartSpec(title, TitleSeparator, 0);
    if Contains(LastPiece(title, TitleSeparator), TitleSeparator) {
      assert LastPiece(title, TitleSeparator) == title[last..|title|];
      var j :| 0 <= j <= |title[last..|title|]| - |TitleSeparator| && OccursAt(title[last..|title|], TitleSeparator, j);
      OccursInSlice(title, TitleSeparator, last, |title|, j);
    }
    var raw := Split(LastPiece(title, TitleSeparator), TagSeparator);
    SplitPiecesClean(LastPiece(title, TitleSeparator), TagSeparator, 0);
    forall i | 0 <= i < |raw| ensures IsNormal(Tags(title)[i]) {
      NormalizeIsNormal(raw[i]);
    }
  }

  // ----- matching -----

  /** `key == main or key in info["aliases"]`. */
  predicate Matches(tag: string, entry: (string, ProviderInfo)) {
    tag == entry.0 || tag in entry.1.aliases
  }

  /** Position of the first provider, from position `from` on, that the tag
      matches and that has not been shown yet. */
  function FirstUnshown(provs: Table<ProviderInfo>, tag: string, shown: seq<string>, from: nat): (r: Option<nat>)
    ensures r.Some? ==> from <= r.value < |provs| && Matches(tag, provs[r.value]) && provs[r.value].0 !in shown
    ensures r.Some? ==> forall j :: from <= j < r.value ==> !Matches(tag, provs[j]) || provs[j].0 in shown
    ensures r.None? ==> forall j :: from <= j < |provs| ==> !Matches(tag, provs[j]) || provs[j].0 in shown
    decreases |provs| - from
  {
    if from >= |provs| then None
    else if Matches(tag, provs[from]) && provs[from].0 !in shown then Some(from)
    else FirstUnshown(provs, tag, shown, from + 1)
  }

  /** The providers shown after visiting tags `i..` from the last one down
      to `i`, in the order they are shown. */
  function Picks(provs: Table<ProviderInfo>, tags: seq<string>, i: nat): (picks: Table<ProviderInfo>)
    requires i <= |tags|
    decreases |tags| - i
  {
    if i == |tags| then []
    else
      var earlier := Picks(provs, tags, i + 1);
      match FirstUnshown(provs, tags[i], Keys(earlier), 0)
      case None => earlier
      case Some(j) => earlier + [provs[j]]
  }

  /** The notices shown for one provider: its link when it has a URL, and its
      login when it has a user name or a password. */
  function Display(info: ProviderInfo): seq<Notice> {
    (if info.url != "" then [ProviderLink(info.url)] else [])
    + (if info.username != "" || info.password != "" then [Login("User: " + info.username + "\nPass: " + info.password)] else [])
  }

  function DisplayAll(picks: Table<ProviderInfo>): seq<Notice> {
    if |picks| == 0 then [] else DisplayAll(picks[..|picks| - 1]) + Display(picks[|picks| - 1].1)
  }

  /** Everything the provider lookup shows for a list of tags. */
  function ScreenTags(provs: Table<ProviderInfo>, tags: seq<string>): seq<Notice> {
    var picks := Picks(provs, tags, 0);
    DisplayAll(picks) + (if |picks| == 0 then [NoProviderInfo(WarningPrefix + Join(tags, ", "))] else [])
  }

  /** Everything the provider lookup shows for one ticket. */
  function Screen(provs: Table<ProviderInfo>, title: string): seq<Notice> {
    ScreenTags(provs, Tags(title))
  }

  /** The inner loop over the dictionary for one tag: the first provider the
      tag matches that is not in `shown`, the set of names shown so far. */
  method FindUnshown(provs: Table<ProviderInfo>, tag: string, shown: set<string>, ghost names: seq<string>) returns (pick: Option<nat>)
    requires forall m :: m in shown <==> m in names
    ensures pick == FirstUnshown(provs, tag, names, 0)
  {
    var j := 0;
    pick := None;
    while j < |provs| && pick.None?
      invariant 0 <= j <= |provs|
      invariant pick.None? ==> FirstUnshown(provs, tag, names, j) == FirstUnshown(provs, tag, names, 0)
      invariant pick.Some? ==> pick == FirstUnshown(provs, tag, names, 0)
    {
      var (main, info) := provs[j];
      if tag == main || tag in info.aliases {
        if main !in shown {
          pick := Some(j);
        }
      }
      j := j + 1;
    }
  }

  /** One turn of the outer loop: the tag at position `i` shows the first
      matching provider not shown yet, if any. */
  method VisitTag(provs: Table<ProviderInfo>, tags: seq<string>, i: nat, shown: set<string>, picked: Table<ProviderInfo>, notices: seq<Notice>)
    returns (shown': set<string>, picked': Table<ProviderInfo>, notices': seq<Notice>)
    requires i < |tags| && picked == Picks(provs, tags, i + 1)
    requires forall m :: m in shown <==> m in Keys(picked)
    requires shown == {} <==> |picked| == 0
    requires notices == DisplayAll(picked)
    ensures picked' == Picks(provs, tags, i)
    ensures forall m :: m in shown' <==> m in Keys(picked')
    ensures shown' == {} <==> |picked'| == 0
    ensures notices' == DisplayAll(picked')
  {
    var pick := FindUnshown(provs, tags[i], shown, Keys(picked));
    PicksStep(provs, tags, i);
    if pick.Some? {
      var entry := provs[pick.value];
      notices' := notices + Display(entry.1);
      shown' := shown + {entry.0};
      assert (picked + [entry])[..|picked|] == picked;
      KeysSnoc(picked, entry);
      picked' := picked + [entry];
    } else {
      shown', picked', notices' := shown, picked, notices;
    }
  }

  /** The lookup as the ticket view runs it. */
  method ShowProviders(provs: Table<ProviderInfo>, title: string) returns (notices: seq<Notice>)
    ensures notices == Screen(provs, title)
  {
    notices := ShowTags(provs, Tags(title));
  }

  /** The loop of the lookup: tags right to left, and for each tag the
      providers in dictionary order, skipping those already shown. */
  method ShowTags(provs: Table<ProviderInfo>, tags: seq<string>) returns (notices: seq<Notice>)
    ensures notices == ScreenTags(provs, tags)
  {
    var shown: set<string> := {};
    var picked: Table<ProviderInfo> := [];
    notices := [];
    var i := |tags|;
    while i > 0
      invariant 0 <= i <= |tags|
      invariant picked == Picks(provs, tags, i)
      invariant forall m :: m in shown <==> m in Keys(picked)
      invariant shown == {} <==> |picked| == 0
      invariant notices == DisplayAll(picked)
    {
      i := i - 1;
      shown, picked, notices := VisitTag(provs, tags, i, shown, picked, notices);
    }
    if shown == {} {
      notices := notices + [NoProviderInfo(WarningPrefix + Join(tags, ", "))];
    }
  }

  /** One step of the outer loop. */
  lemma PicksStep(provs: Table<ProviderInfo>, tags: seq<string>, i: nat)
    requires i < |tags|
    ensures var earlier := Picks(provs, tags, i + 1);
      Picks(provs, tags, i) ==
        match FirstUnshown(provs, tags[i], Keys(earlier), 0)
        case None => earlier
        case Some(j) => earlier + [provs[j]]
  {
  }

  lemma KeysSnoc(t: Table<ProviderInfo>, e: (string, ProviderInfo))
    ensures Keys(t + [e]) == Keys(t) + [e.0]
  {
  }

  // ----- properties of the lookup -----

  /** No provider is shown twice, every shown provider is one of the
      dictionary's entries, and each tag shows at most one provider. */
  lemma {:induction false} PicksDistinct(provs: Table<ProviderInfo>, tags: seq<string>, i: nat)
    requires i <= |tags|
    ensures DistinctKeys(Picks(provs, tags, i))
    ensures forall e :: e in Picks(provs, tags, i) ==> e in provs
    ensures |Picks(provs, tags, i)| <= |tags| - i
    decreases |tags| - i
  {
    if i < |tags| {
      var earlier := Picks(provs, tags, i + 1);
      PicksDistinct(provs, tags, i + 1);
      match FirstUnshown(provs, tags[i], Keys(earlier), 0)
      case None =>
      case Some(j) =>
        var picks := earlier + [provs[j]];
        forall a, b | 0 <= a < b < |picks| ensures picks[a].0 != picks[b].0 {
          if b == |earlier| {
            assert Keys(earlier)[a] == earlier[a].0;
          }
        }
    }
  }

  /** Every shown provider is matched by one of the visited tags. */
  lemma {:induction false} PicksMatched(provs: Table<ProviderInfo>, tags: seq<string>, i: nat)
    requires i <= |tags|
    ensures forall e :: e in Picks(provs, tags, i) ==> exists k :: i <= k < |tags| && Matches(tags[k], e)
    decreases |tags| - i
  {
    if i < |tags| {
      PicksMatched(provs, tags, i + 1);
    }
  }

  /** Some provider the tag matches: the tag has an entry in the dictionary. */
  predicate Known(provs: Table<ProviderInfo>, tag: string) {
    exists j :: 0 <= j < |provs| && Matches(tag, provs[j])
  }

  /** Some provider the tag matches has been shown. */
  predicate Covered(provs: Table<ProviderInfo>, tag: string, picks: Table<ProviderInfo>) {
    exists j :: 0 <= j < |provs| && Matches(tag, provs[j]) && provs[j].0 in Keys(picks)
  }

  /** Showing more providers keeps a tag covered. */
  lemma CoveredGrows(provs: Table<ProviderInfo>, tag: string, picks: Table<ProviderInfo>, e: (string, ProviderInfo))
    requires Covered(provs, tag, picks)
    ensures Covered(provs, tag, picks + [e])
  {
    var j :| 0 <= j < |provs| && Matches(tag, provs[j]) && provs[j].0 in Keys(picks);
    var p :| 0 <= p < |picks| && Keys(picks)[p] == provs[j].0;
    assert Keys(picks + [e])[p] == provs[j].0;
  }

  /** Every tag that some provider matches ends up with a matching provider
      shown: either it shows one itself, or all the providers it matches
      were already shown for more specific tags. */
  lemma {:induction false} PicksCover(provs: Table<ProviderInfo>, tags: seq<string>, i: nat)
    requires i <= |tags|
    ensures forall k :: i <= k < |tags| && Known(provs, tags[k]) ==> Covered(provs, tags[k], Picks(provs, tags, i))
    decreases |tags| - i
  {
    if i < |tags| {
      var earlier := Picks(provs, tags, i + 1);
      PicksCover(provs, tags, i + 1);
      match FirstUnshown(provs, tags[i], Keys(earlier), 0)
      case None =>
        if Known(provs, tags[i]) {
          var j :| 0 <= j < |provs| && Matches(tags[i], provs[j]);
          assert provs[j].0 in Keys(earlier);
        }
      case Some(j) =>
        var picks := earlier + [provs[j]];
        assert Keys(picks)[|earlier|] == provs[j].0;
        forall k | i + 1 <= k < |tags| && Known(provs, tags[k]) ensures Covered(provs, tags[k], picks) {
          CoveredGrows(provs, tags[k], earlier, provs[j]);
        }
    }
  }

  /** The most specific tag comes first: when the last tag matches a
      provider, the first provider shown is the first one in dictionary
      order that it matches. */
  lemma {:induction false} LastTagFirst(provs: Table<ProviderInfo>, tags: seq<string>, i: nat, j: nat)
    requires i < |tags| && j < |provs| && Matches(tags[|tags| - 1], provs[j])
    requires forall q :: 0 <= q < j ==> !Matches(tags[|tags| - 1], provs[q])
    ensures |Picks(provs, tags, i)| > 0 && Picks(provs, tags, i)[0] == provs[j]
    decreases |tags| - i
  {
    if i + 1 < |tags| {
      LastTagFirst(provs, tags, i + 1, j);
    } else {
      assert FirstUnshown(provs, tags[i], [], 0) == Some(j);
    }
  }

  lemma {:induction false} DisplayAllQuiet(picks: Table<ProviderInfo>, m: string)
    ensures NoProviderInfo(m) !in DisplayAll(picks)
  {
    if |picks| > 0 {
      DisplayAllQuiet(picks[..|picks| - 1], m);
    }
  }

  /** The warning is shown exactly when no provider was shown, it is the last
      notice, and it lists all the tags in title order. */
  lemma ScreenWarning(provs: Table<ProviderInfo>, title: string)
    ensures var notices := Screen(provs, title);
      (exists m :: NoProviderInfo(m) in notices) <==> |Picks(provs, Tags(title), 0)| == 0
    ensures |Picks(provs, Tags(title), 0)| == 0 ==>
      Screen(provs, title) == [NoProviderInfo(WarningPrefix + Join(Tags(title), ", "))]
  {
    var picks := Picks(provs, Tags(title), 0);
    var notices := Screen(provs, title);
    if |picks| > 0 {
      forall m ensures NoProviderInfo(m) !in notices {
        DisplayAllQuiet(picks, m);
      }
    } else {
      assert NoProviderInfo(WarningPrefix + Join(Tags(title), ", ")) in notices;
    }
  }

  /** With no known tag nothing is shown but the warning; with a known tag
      no warning is shown. */
  lemma WarningIffUnknown(provs: Table<ProviderInfo>, title: string)
    ensures |Picks(provs, Tags(title), 0)| == 0 <==> forall k :: 0 <= k < |Tags(title)| ==> !Known(provs, Tags(title)[k])
  {
    var tags := Tags(title);
    var picks := Picks(provs, tags, 0);
    PicksCover(provs, tags, 0);
    PicksMatched(provs, tags, 0);
    PicksDistinct(provs, tags, 0);
    if |picks| > 0 {
      assert picks[0] in picks;
      var k :| 0 <= k < |tags| && Matches(tags[k], picks[0]);
      var j :| 0 <= j < |provs| && provs[j] == picks[0];
      assert Known(provs, tags[k]);
    } else {
      assert Keys(picks) == [];
    }
  }
}
