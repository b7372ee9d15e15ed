/** The achievement helpers: choosing an achievement's title from its
    campaign, and the pure part of collecting the claimable IFO achievements
    of an account (selecting the IFOs that belong to a campaign, building the
    claim-status calls, and folding point responses into achievement
    records). The IFO list, the campaign registry, the points-center address
    and the description function are parameters. */
module Achievements {
  import opened AchievementTypes

  const IfoKind: string := "ifo"
  const IfoTitleKey: string := "IFO Shopper: %title%"
  const TitleParam: string := "title"
  const ClaimStatusMethod: string := "checkClaimStatus"

  // ---------------------------------------------------------------------
  // Title selection
  // ---------------------------------------------------------------------

  /** The title of an achievement earned in `campaign`: an IFO campaign gets
      the translation key "IFO Shopper: %title%" with the campaign's own
      title as its only parameter; every other campaign keeps its title. */
  function AchievementTitle(campaign: Campaign): (r: TranslatableText)
    ensures campaign.kind == IfoKind ==>
      && r.Keyed?
      && r.key == IfoTitleKey
      && r.data.Keys == {TitleParam}
      && r.data[TitleParam] == campaign.title
    ensures campaign.kind != IfoKind ==> r == campaign.title
  {
    if campaign.kind == IfoKind then Keyed(IfoTitleKey, map[TitleParam := campaign.title])
    else campaign.title
  }

  /** Reads back the campaign title that an achievement title of the given
      campaign kind carries; None when it carries none. */
  function CampaignTitleOf(kind: string, title: TranslatableText): Option<TranslatableText>
  {
    if kind != IfoKind then Some(title)
    else if title.Keyed? && title.key == IfoTitleKey && TitleParam in title.data then Some(title.data[TitleParam])
    else None
  }

  /** The achievement title always lets the campaign title be read back. */
  lemma AchievementTitleKeepsCampaignTitle(campaign: Campaign)
    ensures CampaignTitleOf(campaign.kind, AchievementTitle(campaign)) == Some(campaign.title)
  {
  }

  /** Within one campaign kind, two campaigns get the same achievement title
      exactly when they have the same title. */
  lemma AchievementTitleInjective(c1: Campaign, c2: Campaign)
    requires c1.kind == c2.kind
    ensures AchievementTitle(c1) == AchievementTitle(c2) <==> c1.title == c2.title
  {
  }

  // ---------------------------------------------------------------------
  // IFOs that take part in a campaign
  // ---------------------------------------------------------------------

  predicate HasCampaignId(ifo: Ifo) {
    ifo.campaignId.Some?
  }

  /** The IFO list filtered down to the entries with a campaign identifier. */
  function IfoCampaigns(ifos: seq<Ifo>): (r: seq<Ifo>)
    ensures |r| <= |ifos|
    ensures forall ifo :: ifo in r <==> ifo in ifos && HasCampaignId(ifo)
    ensures forall ifo :: multiset(r)[ifo] == if HasCampaignId(ifo) then multiset(ifos)[ifo] else 0
  {
    if ifos == [] then []
    else
      assert ifos == [ifos[0]] + ifos[1..];
      if HasCampaignId(ifos[0]) then [ifos[0]] + IfoCampaigns(ifos[1..])
      else IfoCampaigns(ifos[1..])
  }

  /** Filtering commutes with concatenation, so the kept entries stay in
      their original order. */
  lemma {:induction false} IfoCampaignsAppend(a: seq<Ifo>, b: seq<Ifo>)
    ensures IfoCampaigns(a + b) == IfoCampaigns(a) + IfoCampaigns(b)
  {
    if a == [] {
      assert a + b == b;
    } else {
      assert (a + b)[1..] == a[1..] + b;
      IfoCampaignsAppend(a[1..], b);
    }
  }

  /** An IFO list whose entries all have campaign identifiers is kept whole. */
  lemma {:induction false} IfoCampaignsKeepsAll(ifos: seq<Ifo>)
    requires forall k :: 0 <= k < |ifos| ==> HasCampaignId(ifos[k])
    ensures IfoCampaigns(ifos) == ifos
  {
    if ifos != [] {
      IfoCampaignsKeepsAll(ifos[1..]);
    }
  }

  /** Filtering twice is filtering once. */
  lemma IfoCampaignsIdempotent(ifos: seq<Ifo>)
    ensures IfoCampaigns(IfoCampaigns(ifos)) == IfoCampaigns(ifos)
  {
  }

  /** The positions of the IFO list that carry a campaign identifier. */
  function CampaignPositions(ifos: seq<Ifo>): set<nat>
  {
    set k: nat | k < |ifos| && HasCampaignId(ifos[k])
  }

  /** The filtered list has one entry per position with a campaign identifier. */
  lemma {:induction false} IfoCampaignsCount(ifos: seq<Ifo>)
    ensures |IfoCampaigns(ifos)| == |CampaignPositions(ifos)|
    decreases |ifos|
  {
    if ifos == [] {
      assert CampaignPositions(ifos) == {};
    } else {
      var n := |ifos| - 1;
      var init, last := ifos[..n], ifos[n];
      assert ifos == init + [last];
      IfoCampaignsCount(init);
      IfoCampaignsAppend(init, [last]);
      assert [last][1..] == [];
      PositionsSnoc(init, last);
    }
  }

  lemma PositionsSnoc(init: seq<Ifo>, last: Ifo)
    ensures CampaignPositions(init + [last])
         == CampaignPositions(init) + (if HasCampaignId(last) then {|init|} else {})
    ensures |init| !in CampaignPositions(init)
  {
  }

  // ---------------------------------------------------------------------
  // Claim-status calls
  // ---------------------------------------------------------------------

  /** One claim-status call per IFO campaign, in the same order, each asking
      the points center whether `account` may claim for that IFO. */
  function ClaimStatusCalls(account: string, pointCenter: string, campaigns: seq<Ifo>): (r: seq<ContractCall>)
    ensures |r| == |campaigns|
    ensures forall k :: 0 <= k < |r| ==>
      && r[k].address == pointCenter
      && r[k].name == ClaimStatusMethod
      && r[k].params == [account, campaigns[k].address]
  {
    if campaigns == [] then []
    else [ContractCall(pointCenter, ClaimStatusMethod, [account, campaigns[0].address])]
         + ClaimStatusCalls(account, pointCenter, campaigns[1..])
  }

  /** Calls built from the filtered IFO list: exactly one per entry that has a
      campaign identifier, and every call queries such an entry's address. */
  lemma ClaimStatusCallsOnlyForCampaigns(account: string, pointCenter: string, ifos: seq<Ifo>)
    ensures |ClaimStatusCalls(account, pointCenter, IfoCampaigns(ifos))| == |CampaignPositions(ifos)|
    ensures forall call :: call in ClaimStatusCalls(account, pointCenter, IfoCampaigns(ifos)) ==>
      exists ifo :: ifo in ifos && HasCampaignId(ifo) && call.params == [account, ifo.address]
  {
    IfoCampaignsCount(ifos);
    var campaigns := IfoCampaigns(ifos);
    var calls := ClaimStatusCalls(account, pointCenter, campaigns);
    forall call | call in calls
      ensures exists ifo :: ifo in ifos && HasCampaignId(ifo) && call.params == [account, ifo.address]
    {
      var k :| 0 <= k < |calls| && calls[k] == call;
      assert campaigns[k] in campaigns;
    }
  }

  // ---------------------------------------------------------------------
  // Finding the IFO of a campaign
  // ---------------------------------------------------------------------

  /** The position of the first IFO whose campaign identifier is `id`. */
  function FirstMatch(campaigns: seq<Ifo>, id: string): (r: Option<nat>)
    ensures r.None? <==> forall k :: 0 <= k < |campaigns| ==> campaigns[k].campaignId != Some(id)
    ensures r.Some? ==>
      && r.value < |campaigns|
      && campaigns[r.value].campaignId == Some(id)
      && forall j :: 0 <= j < r.value ==> campaigns[j].campaignId != Some(id)
  {
    if campaigns == [] then None
    else if campaigns[0].campaignId == Some(id) then Some(0)
    else match FirstMatch(campaigns[1..], id)
      case None => None
      case Some(k) => Some(k + 1)
  }

  /** The first IFO whose campaign identifier is `id`, if any. */
  function Find(campaigns: seq<Ifo>, id: string): (r: Option<Ifo>)
    ensures r.None? <==> forall ifo :: ifo in campaigns ==> ifo.campaignId != Some(id)
    ensures r.Some? ==> r.value in campaigns && r.value.campaignId == Some(id)
    ensures r.Some? ==> exists k :: (0 <= k < |campaigns| && campaigns[k] == r.value
      && forall j :: 0 <= j < k ==> campaigns[j].campaignId != Some(id))
  {
    match FirstMatch(campaigns, id)
    case None => None
    case Some(k) => Some(campaigns[k])
  }

  lemma FindCons(ifo: Ifo, rest: seq<Ifo>, id: string)
    ensures Find([ifo] + rest, id) == if ifo.campaignId == Some(id) then Some(ifo) else Find(rest, id)
  {
  }

  /** Searching the filtered IFO list finds the same IFO as searching the
      whole list: entries without a campaign identifier never match. */
  lemma {:induction false} FindAfterFilter(ifos: seq<Ifo>, id: string)
    ensures Find(IfoCampaigns(ifos), id) == Find(ifos, id)
  {
    if ifos != [] {
      assert ifos == [ifos[0]] + ifos[1..];
      FindCons(ifos[0], ifos[1..], id);
      FindAfterFilter(ifos[1..], id);
      if HasCampaignId(ifos[0]) {
        FindCons(ifos[0], IfoCampaigns(ifos[1..]), id);
      }
    }
  }

  // ---------------------------------------------------------------------
  // Folding point responses into achievements
  // ---------------------------------------------------------------------

  /** The achievement record for `points` earned in campaign `id`, whose
      registry entry is `meta` and whose IFO contract is at `address`. */
  function NewAchievement(address: string, id: string, meta: Campaign, describe: Campaign -> TranslatableText, points: int): Achievement
  {
    Achievement(address, id, IfoKind, AchievementTitle(meta), describe(meta), meta.badge, points)
  }

  /** One step of the reduce: a response for a campaign the registry does
      not know leaves the accumulator as it is; otherwise the IFO of the
      campaign is looked up (failing when there is none) and one record is
      appended. */
  function Step(registry: map<string, Campaign>, campaigns: seq<Ifo>, describe: Campaign -> TranslatableText,
                accum: seq<Achievement>, item: IfoMapResponse): (r: Result<seq<Achievement>, Error>)
    ensures item.campaignId !in registry ==> r == Success(accum)
    ensures item.campaignId in registry && Find(campaigns, item.campaignId).None? ==>
      r == Failure(MissingIfo(item.campaignId))
    ensures item.campaignId in registry && Find(campaigns, item.campaignId).Some? ==>
      && r.Success?
      && |r.value| == |accum| + 1
      && r.value[..|accum|] == accum
      && r.value[|accum|].id == item.campaignId
      && r.value[|accum|].kind == IfoKind
      && r.value[|accum|].points == item.numberPoints
      && r.value[|accum|].badge == registry[item.campaignId].badge
      && r.value[|accum|].title == AchievementTitle(registry[item.campaignId])
      && r.value[|accum|].description == describe(registry[item.campaignId])
      && r.value[|accum|].address == Find(campaigns, item.campaignId).value.address
  {
    var id := item.campaignId;
    if id !in registry then Success(accum)
    else match Find(campaigns, id)
      case None => Failure(MissingIfo(id))
      case Some(ifo) => Success(accum + [NewAchievement(ifo.address, id, registry[id], describe, item.numberPoints)])
  }

  /** The reduce over the responses, from the first to the last, starting
      from the empty list; the first failing step ends it. */
  function ToAchievements(registry: map<string, Campaign>, campaigns: seq<Ifo>, describe: Campaign -> TranslatableText,
                          items: seq<IfoMapResponse>): (r: Result<seq<Achievement>, Error>)
    ensures r.Success? ==> |r.value| <= |items|
    ensures r.Success? ==> forall k :: 0 <= k < |r.value| ==>
      r.value[k].id in registry && r.value[k].kind == IfoKind
    ensures r.Failure? ==> r.error.campaignId in registry && Find(campaigns, r.error.campaignId).None?
    decreases |items|
  {
    if items == [] then Success([])
    else match ToAchievements(registry, campaigns, describe, items[..|items| - 1])
      case Failure(e) => Failure(e)
      case Success(accum) => Step(registry, campaigns, describe, accum, items[|items| - 1])
  }

  // ---------------------------------------------------------------------
  // Reference definition of the fold
  // ---------------------------------------------------------------------

  /** A response the fold can handle: either its campaign is unknown to the
      registry, or some IFO carries its campaign identifier. */
  predicate Resolvable(registry: map<string, Campaign>, campaigns: seq<Ifo>, item: IfoMapResponse) {
    item.campaignId in registry ==> Find(campaigns, item.campaignId).Some?
  }

  predicate AllResolvable(registry: map<string, Campaign>, campaigns: seq<Ifo>, items: seq<IfoMapResponse>) {
    forall item :: item in items ==> Resolvable(registry, campaigns, item)
  }

  /** The responses whose campaign the registry knows, in input order. */
  function Kept(registry: map<string, Campaign>, items: seq<IfoMapResponse>): (r: seq<IfoMapResponse>)
    ensures |r| <= |items|
    ensures forall item :: item in r <==> item in items && item.campaignId in registry
  {
    if items == [] then []
    else if items[0].campaignId in registry then [items[0]] + Kept(registry, items[1..])
    else Kept(registry, items[1..])
  }

  lemma {:induction false} KeptAppend(registry: map<string, Campaign>, a: seq<IfoMapResponse>, b: seq<IfoMapResponse>)
    ensures Kept(registry, a + b) == Kept(registry, a) + Kept(registry, b)
  {
    if a == [] {
      assert a + b == b;
    } else {
      assert (a + b)[1..] == a[1..] + b;
      KeptAppend(registry, a[1..], b);
    }
  }

  /** The record of a kept, resolvable response. */
  function AchievementFor(registry: map<string, Campaign>, campaigns: seq<Ifo>, describe: Campaign -> TranslatableText,
                          item: IfoMapResponse): Achievement
    requires item.campaignId in registry && Find(campaigns, item.campaignId).Some?
  {
    NewAchievement(Find(campaigns, item.campaignId).value.address, item.campaignId,
                   registry[item.campaignId], describe, item.numberPoints)
  }

  /** One record per kept response, in the same order. */
  function Records(registry: map<string, Campaign>, campaigns: seq<Ifo>, describe: Campaign -> TranslatableText,
                   kept: seq<IfoMapResponse>): (r: seq<Achievement>)
    requires forall item :: item in kept ==>
      item.campaignId in registry && Find(campaigns, item.campaignId).Some?
    ensures |r| == |kept|
    ensures forall k :: 0 <= k < |r| ==> r[k] == AchievementFor(registry, campaigns, describe, kept[k])
  {
    if kept == [] then []
    else [AchievementFor(registry, campaigns, describe, kept[0])] + Records(registry, campaigns, describe, kept[1..])
  }

  /** What the fold computes: it succeeds exactly when every response is
      resolvable, and then yields one record per response whose campaign
      the registry knows, in input order; otherwise it fails on the first
      response whose campaign has no IFO. */
  lemma {:induction false} ToAchievementsMeaning(registry: map<string, Campaign>, campaigns: seq<Ifo>,
                                                 describe: Campaign -> TranslatableText, items: seq<IfoMapResponse>)
    ensures ToAchievements(registry, campaigns, describe, items).Success? <==> AllResolvable(registry, campaigns, items)
    ensures ToAchievements(registry, campaigns, describe, items).Success? ==>
      ToAchievements(registry, campaigns, describe, items).value
        == Records(registry, campaigns, describe, Kept(registry, items))
    ensures ToAchievements(registry, campaigns, describe, items).Failure? ==>
      exists i :: 0 <= i < |items|
        && !Resolvable(registry, campaigns, items[i])
        && ToAchievements(registry, campaigns, describe, items).error == MissingIfo(items[i].campaignId)
        && AllResolvable(registry, campaigns, items[..i])
    decreases |items|
  {
    if items != [] {
      var n := |items| - 1;
      var init, last := items[..n], items[n];
      assert items == init + [last];
      ToAchievementsMeaning(registry, campaigns, describe, init);
      ResolvableSnoc(registry, campaigns, init, last);
      match ToAchievements(registry, campaigns, describe, init)
      case Failure(e) =>
        var i :| 0 <= i < |init|
          && !Resolvable(registry, campaigns, init[i])
          && e == MissingIfo(init[i].campaignId)
          && AllResolvable(registry, campaigns, init[..i]);
        assert items[i] == init[i] && items[..i] == init[..i];
      case Success(accum) =>
        KeptSnoc(registry, init, last);
        if Resolvable(registry, campaigns, last) && last.campaignId in registry {
          RecordsSnoc(registry, campaigns, describe, Kept(registry, init), last);
        } else if !Resolvable(registry, campaigns, last) {
          assert items[n] == last && items[..n] == init;
        }
    }
  }

  lemma ResolvableSnoc(registry: map<string, Campaign>, campaigns: seq<Ifo>,
                       init: seq<IfoMapResponse>, last: IfoMapResponse)
    ensures AllResolvable(registry, campaigns, init + [last])
        <==> AllResolvable(registry, campaigns, init) && Resolvable(registry, campaigns, last)
  {
  }

  lemma KeptSnoc(registry: map<string, Campaign>, init: seq<IfoMapResponse>, last: IfoMapResponse)
    ensures Kept(registry, init + [last])
         == Kept(registry, init) + (if last.campaignId in registry then [last] else [])
  {
    KeptAppend(registry, init, [last]);
    assert [last][1..] == [];
  }

  lemma RecordsSnoc(registry: map<string, Campaign>, campaigns: seq<Ifo>,
                    describe: Campaign -> TranslatableText,
                    kept: seq<IfoMapResponse>, last: IfoMapResponse)
    requires forall item :: item in kept ==>
      item.campaignId in registry && Find(campaigns, item.campaignId).Some?
    requires last.campaignId in registry && Find(campaigns, last.campaignId).Some?
    ensures Records(registry, campaigns, describe, kept + [last])
         == Records(registry, campaigns, describe, kept) + [AchievementFor(registry, campaigns, describe, last)]
  {
  }

  /** Each record of a successful fold, field by field, against the kept
      response it was made from. */
  lemma AchievementFields(registry: map<string, Campaign>, campaigns: seq<Ifo>,
                          describe: Campaign -> TranslatableText, items: seq<IfoMapResponse>)
    requires ToAchievements(registry, campaigns, describe, items).Success?
    ensures var recs := ToAchievements(registry, campaigns, describe, items).value;
      var kept := Kept(registry, items);
      && |recs| == |kept|
      && forall k :: 0 <= k < |recs| ==>
        && kept[k].campaignId in registry
        && Find(campaigns, kept[k].campaignId).Some?
        && recs[k].id == kept[k].campaignId
        && recs[k].kind == IfoKind
        && recs[k].points == kept[k].numberPoints
        && recs[k].badge == registry[kept[k].campaignId].badge
        && recs[k].title == AchievementTitle(registry[kept[k].campaignId])
        && recs[k].description == describe(registry[kept[k].campaignId])
        && recs[k].address == Find(campaigns, kept[k].campaignId).value.address
  {
    ToAchievementsMeaning(registry, campaigns, describe, items);
  }

  /** A response whose campaign the registry does not know adds nothing. */
  lemma UnknownCampaignDropped(registry: map<string, Campaign>, campaigns: seq<Ifo>,
                               describe: Campaign -> TranslatableText, items: seq<IfoMapResponse>, item: IfoMapResponse)
    requires item.campaignId !in registry
    ensures ToAchievements(registry, campaigns, describe, items + [item])
         == ToAchievements(registry, campaigns, describe, items)
  {
  }

  // ---------------------------------------------------------------------
  // The whole computation
  // ---------------------------------------------------------------------

  /** The claim-status calls issued for `account`, and the achievements made
      from the point responses `items`. */
  function GetClaimableIfoData(account: string, pointCenter: string, ifos: seq<Ifo>,
                               registry: map<string, Campaign>, describe: Campaign -> TranslatableText,
                               items: seq<IfoMapResponse>): (r: (seq<ContractCall>, Result<seq<Achievement>, Error>))
    ensures |r.0| == |CampaignPositions(ifos)|
    ensures r.1.Success? ==> |r.1.value| <= |items|
    ensures r.1.Success? ==> forall k :: 0 <= k < |r.1.value| ==>
      && r.1.value[k].id in registry
      && Find(ifos, r.1.value[k].id).Some?
      && r.1.value[k].address == Find(ifos, r.1.value[k].id).value.address
  {
    var campaigns := IfoCampaigns(ifos);
    var calls := ClaimStatusCalls(account, pointCenter, campaigns);
    var achievements := ToAchievements(registry, campaigns, describe, items);
    ClaimStatusCallsOnlyForCampaigns(account, pointCenter, ifos);
    if achievements.Success? then
      AchievementFields(registry, campaigns, describe, items);
      AddressesFromIfoList(registry, ifos, describe, items);
      (calls, achievements)
    else
      (calls, achievements)
  }

  lemma AddressesFromIfoList(registry: map<string, Campaign>, ifos: seq<Ifo>,
                             describe: Campaign -> TranslatableText, items: seq<IfoMapResponse>)
    requires ToAchievements(registry, IfoCampaigns(ifos), describe, items).Success?
    ensures var recs := ToAchievements(registry, IfoCampaigns(ifos), describe, items).value;
      forall k :: 0 <= k < |recs| ==>
        Find(ifos, recs[k].id).Some? && recs[k].address == Find(ifos, recs[k].id).value.address
  {
    var campaigns := IfoCampaigns(ifos);
    var recs := ToAchievements(registry, campaigns, describe, items).value;
    AchievementFields(registry, campaigns, describe, items);
    forall k | 0 <= k < |recs|
      ensures Find(ifos, recs[k].id).Some? && recs[k].address == Find(ifos, recs[k].id).value.address
    {
      FindAfterFilter(ifos, recs[k].id);
    }
  }

  /** A worked case: of three IFOs the middle one has no campaign identifier,
      so two calls are issued; the registry knows campaign "1" only, so the
      response for campaign "2" is dropped and one record remains. */
  lemma RegistryMissScenario(describe: Campaign -> TranslatableText, meta: Campaign)
    ensures var ifos := [Ifo("0xA", Some("1")), Ifo("0xB", None), Ifo("0xC", Some("2"))];
      var items := [IfoMapResponse("", "1", 500), IfoMapResponse("", "2", 10)];
      var r := GetClaimableIfoData("0xUser", "0xCenter", ifos, map["1" := meta], describe, items);
      && r.0 == [ContractCall("0xCenter", ClaimStatusMethod, ["0xUser", "0xA"]),
                 ContractCall("0xCenter", ClaimStatusMethod, ["0xUser", "0xC"])]
      && r.1 == Success([NewAchievement("0xA", "1", meta, describe, 500)])
  {
    ScenarioCampaigns();
    ScenarioCalls();
    ScenarioFold(describe, meta);
  }

  lemma ScenarioCampaigns()
    ensures IfoCampaigns([Ifo("0xA", Some("1")), Ifo("0xB", None), Ifo("0xC", Some("2"))])
         == [Ifo("0xA", Some("1")), Ifo("0xC", Some("2"))]
  {
    var ifos := [Ifo("0xA", Some("1")), Ifo("0xB", None), Ifo("0xC", Some("2"))];
    assert ifos[1..] == [Ifo("0xB", None), Ifo("0xC", Some("2"))];
    assert ifos[1..][1..] == [Ifo("0xC", Some("2"))];
    assert ifos[1..][1..][1..] == [];
  }

  lemma ScenarioCalls()
    ensures ClaimStatusCalls("0xUser", "0xCenter", [Ifo("0xA", Some("1")), Ifo("0xC", Some("2"))])
         == [ContractCall("0xCenter", ClaimStatusMethod, ["0xUser", "0xA"]),
             ContractCall("0xCenter", ClaimStatusMethod, ["0xUser", "0xC"])]
  {
    var campaigns := [Ifo("0xA", Some("1")), Ifo("0xC", Some("2"))];
    assert campaigns[1..] == [Ifo("0xC", Some("2"))] && campaigns[1..][1..] == [];
  }

  lemma ScenarioFold(describe: Campaign -> TranslatableText, meta: Campaign)
    ensures ToAchievements(map["1" := meta], [Ifo("0xA", Some("1")), Ifo("0xC", Some("2"))], describe,
                           [IfoMapResponse("", "1", 500), IfoMapResponse("", "2", 10)])
         == Success([NewAchievement("0xA", "1", meta, describe, 500)])
  {
    var campaigns := [Ifo("0xA", Some("1")), Ifo("0xC", Some("2"))];
    var items := [IfoMapResponse("", "1", 500), IfoMapResponse("", "2", 10)];
    var registry := map["1" := meta];
    var rec := NewAchievement("0xA", "1", meta, describe, 500);
    assert ToAchievements(registry, campaigns, describe, items[..1]) == Success([rec]) by {
      assert items[..1][..0] == [] && items[..1][0] == items[0];
      assert ToAchievements(registry, campaigns, describe, []) == Success([]);
      assert FirstMatch(campaigns, "1") == Some(0);
      assert items[0].campaignId == "1" && "1" in registry && registry["1"] == meta;
      assert [] + [rec] == [rec];
      assert Step(registry, campaigns, describe, [], items[0]) == Success([rec]);
    }
    assert items[..|items| - 1] == items[..1];
    assert "2" !in registry;
  }
}
