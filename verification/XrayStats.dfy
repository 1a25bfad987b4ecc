/**
 `XrayAPI.GetTraffic`: the core's statistics become one report per tag and one per email; and what a
 tick does with them conserves traffic, from the statistics to the rows' lifetime totals.
 */
module XrayStats {
  import opened Panel
  import opened Traffic
  import Ledger

  /** The names of statistics that the two regular expressions accept, taken apart; `Other` is the rest. */
  datatype StatName =
    | TagStat(isInbound: bool, tag: string, isDown: bool)
    | UserStat(email: string, isDown: bool)
    | Other(name: string)

  datatype Stat = Stat(name: StatName, value: int)

  // ----- aggregation -----

  /** The value that is assigned last under a name, or 0. */
  function LastValue(stats: seq<Stat>, name: StatName): int {
    if |stats| == 0 then 0
    else if stats[|stats| - 1].name == name then stats[|stats| - 1].value
    else LastValue(stats[..|stats| - 1], name)
  }

  predicate Mentions(stats: seq<Stat>, email: string) {
    exists i :: 0 <= i < |stats| && stats[i].name.UserStat? && stats[i].name.email == email
  }

  method ProcessClientTraffic(email: string, isDown: bool, value: int, trafficMap: map<string, Report>)
    returns (trafficMap': map<string, Report>)
    requires email in trafficMap ==> trafficMap[email].email == email
    ensures var r := if email in trafficMap then trafficMap[email] else Report(email, 0, 0);
            trafficMap' == trafficMap[email := if isDown then r.(down := value) else r.(up := value)]
  {
    trafficMap' := trafficMap;
    if email !in trafficMap' {
      trafficMap' := trafficMap'[email := Report(email, 0, 0)];
    }
    if isDown {
      trafficMap' := trafficMap'[email := trafficMap'[email].(down := value)];
    } else {
      trafficMap' := trafficMap'[email := trafficMap'[email].(up := value)];
    }
  }

  method ProcessTraffic(isInbound: bool, tag: string, isDown: bool, value: int, trafficMap: map<string, TagTraffic>)
    returns (trafficMap': map<string, TagTraffic>)
    ensures tag == "api" ==> trafficMap' == trafficMap
    ensures tag != "api" ==>
              var r := if tag in trafficMap then trafficMap[tag] else TagTraffic(isInbound, tag, 0, 0);
              trafficMap' == trafficMap[tag := if isDown then r.(down := value) else r.(up := value)]
  {
    trafficMap' := trafficMap;
    if tag == "api" {
      return;
    }
    if tag !in trafficMap' {
      trafficMap' := trafficMap'[tag := TagTraffic(isInbound, tag, 0, 0)];
    }
    if isDown {
      trafficMap' := trafficMap'[tag := trafficMap'[tag].(down := value)];
    } else {
      trafficMap' := trafficMap'[tag := trafficMap'[tag].(up := value)];
    }
  }

  /** The reports by email: one for every email in the statistics, with the last values. */
  ghost predicate Aggregated(stats: seq<Stat>, m: map<string, Report>) {
    && (forall e :: e in m <==> Mentions(stats, e))
    && forall e :: e in m ==> m[e] == Report(e, LastValue(stats, UserStat(e, false)), LastValue(stats, UserStat(e, true)))
  }

  predicate MentionsTag(stats: seq<Stat>, tag: string) {
    exists i :: 0 <= i < |stats| && stats[i].name.TagStat? && stats[i].name.tag == tag
  }

  function FirstDirection(stats: seq<Stat>, tag: string): bool
    requires MentionsTag(stats, tag)
  {
    if stats[0].name.TagStat? && stats[0].name.tag == tag then stats[0].name.isInbound
    else FirstDirection(stats[1..], tag)
  }

  /** The value assigned last for a tag and a link, whether as an inbound or as an outbound. */
  function LastOfTag(stats: seq<Stat>, tag: string, isDown: bool): int {
    if |stats| == 0 then 0
    else
      var x := stats[|stats| - 1];
      if x.name.TagStat? && x.name.tag == tag && x.name.isDown == isDown then x.value
      else LastOfTag(stats[..|stats| - 1], tag, isDown)
  }

  /** The reports by tag: the first statistic decides the direction, the last ones of either direction the values. */
  ghost predicate AggregatedTags(stats: seq<Stat>, m: map<string, TagTraffic>) {
    && (forall tag :: tag in m <==> tag != "api" && MentionsTag(stats, tag))
    && forall tag :: tag in m ==>
         m[tag] == TagTraffic(FirstDirection(stats, tag), tag, LastOfTag(stats, tag, false), LastOfTag(stats, tag, true))
  }

  /** The map's values in some order: one report for every email in the statistics. */
  ghost predicate IsAggregate(stats: seq<Stat>, reports: seq<Report>) {
    && (forall i, j :: 0 <= i < j < |reports| ==> reports[i].email != reports[j].email)
    && (forall i :: 0 <= i < |reports| ==>
          var e := reports[i].email;
          Mentions(stats, e) && reports[i] == Report(e, LastValue(stats, UserStat(e, false)), LastValue(stats, UserStat(e, true))))
    && forall e :: Mentions(stats, e) ==> IsReported(reports, e)
  }

  /** One report for every tag but the API's own. */
  ghost predicate IsTagAggregate(stats: seq<Stat>, tags: seq<TagTraffic>) {
    && (forall i, j :: 0 <= i < j < |tags| ==> tags[i].tag != tags[j].tag)
    && (forall i :: 0 <= i < |tags| ==>
          var tag := tags[i].tag;
          && tag != "api" && MentionsTag(stats, tag)
          && tags[i] == TagTraffic(FirstDirection(stats, tag), tag, LastOfTag(stats, tag, false), LastOfTag(stats, tag, true)))
    && forall tag :: tag != "api" && MentionsTag(stats, tag) ==> exists i :: 0 <= i < |tags| && tags[i].tag == tag
  }

  /** The values in the order in which the map is walked, which is unspecified. */
  method MapToSlice<T>(m: map<string, T>) returns (result: seq<T>, ghost keys: seq<string>)
    ensures |result| == |m| && forall e :: e in m ==> m[e] in result
    ensures |keys| == |result|
    ensures forall i, j :: 0 <= i < j < |keys| ==> keys[i] != keys[j]
    ensures forall i :: 0 <= i < |keys| ==> keys[i] in m && result[i] == m[keys[i]]
    ensures forall e :: e in m ==> e in keys
  {
    var rest := m.Keys;
    result, keys := [], [];
    while exists e :: e in rest
      invariant rest <= m.Keys && |keys| == |result| == |m| - |rest|
      invariant forall e :: e in m ==> e in rest || m[e] in result
      invariant forall i, j :: 0 <= i < j < |keys| ==> keys[i] != keys[j]
      invariant forall i :: 0 <= i < |keys| ==> keys[i] in m && keys[i] !in rest && result[i] == m[keys[i]]
      invariant forall e :: e in m ==> e in rest || e in keys
      decreases rest
    {
      var e :| e in rest;
      result, keys := result + [m[e]], keys + [e];
      rest := rest - {e};
    }
  }

  method GetTraffic(stats: seq<Stat>) returns (tags: seq<TagTraffic>, reports: seq<Report>)
    ensures IsAggregate(stats, reports)
    ensures IsTagAggregate(stats, tags)
  {
    var tagTrafficMap: map<string, TagTraffic> := map[];
    var emailTrafficMap: map<string, Report> := map[];
    for i := 0 to |stats|
      invariant Aggregated(stats[..i], emailTrafficMap)
      invariant AggregatedTags(stats[..i], tagTrafficMap)
    {
      ghost var tagsBefore, emailsBefore := tagTrafficMap, emailTrafficMap;
      match stats[i].name {
        case TagStat(isInbound, tag, isDown) =>
          tagTrafficMap := ProcessTraffic(isInbound, tag, isDown, stats[i].value, tagTrafficMap);
        case UserStat(email, isDown) =>
          emailTrafficMap := ProcessClientTraffic(email, isDown, stats[i].value, emailTrafficMap);
        case Other(_) =>
      }
      NextStat(stats, i, emailsBefore, emailTrafficMap);
      NextTagStat(stats, i, tagsBefore, tagTrafficMap);
    }
    assert stats[..|stats|] == stats;
    ghost var emails, names: seq<string>;
    reports, emails := MapToSlice(emailTrafficMap);
    tags, names := MapToSlice(tagTrafficMap);
    SliceIsAggregate(stats, emailTrafficMap, reports, emails);
    SliceIsTagAggregate(stats, tagTrafficMap, tags, names);
  }

  lemma NextStat(stats: seq<Stat>, i: nat, m: map<string, Report>, m': map<string, Report>)
    requires i < |stats| && Aggregated(stats[..i], m)
    requires !stats[i].name.UserStat? ==> m' == m
    requires stats[i].name.UserStat? ==>
               var e := stats[i].name.email;
               var r := if e in m then m[e] else Report(e, 0, 0);
               m' == m[e := if stats[i].name.isDown then r.(down := stats[i].value) else r.(up := stats[i].value)]
    ensures Aggregated(stats[..i + 1], m')
  {
    var h, s := stats[..i], stats[..i + 1];
    assert s[..i] == h;
    forall e
      ensures Mentions(s, e) <==> Mentions(h, e) || (stats[i].name.UserStat? && stats[i].name.email == e)
    {
      MentionsSnoc(h, stats[i], e);
      assert s == h + [stats[i]];
    }
    forall e | e !in m
      ensures LastValue(h, UserStat(e, false)) == 0 && LastValue(h, UserStat(e, true)) == 0
    {
      NotMentioned(h, e);
    }
  }

  lemma TagSnoc(h: seq<Stat>, x: Stat, tag: string)
    ensures MentionsTag(h + [x], tag) <==> MentionsTag(h, tag) || (x.name.TagStat? && x.name.tag == tag)
  {
    var s := h + [x];
    if MentionsTag(h, tag) {
      var i :| 0 <= i < |h| && h[i].name.TagStat? && h[i].name.tag == tag;
      assert s[i] == h[i];
    }
    assert s[|h|] == x;
  }

  lemma {:induction false} DirectionSnoc(h: seq<Stat>, x: Stat, tag: string)
    requires MentionsTag(h + [x], tag)
    ensures FirstDirection(h + [x], tag) ==
            if MentionsTag(h, tag) then FirstDirection(h, tag) else x.name.TagStat? && x.name.isInbound
  {
    TagSnoc(h, x, tag);
    var s := h + [x];
    if |h| == 0 {
    } else {
      assert s[1..] == h[1..] + [x];
      assert h == [h[0]] + h[1..];
      if !(h[0].name.TagStat? && h[0].name.tag == tag) {
        TagSnoc(h[1..], x, tag);
        assert MentionsTag(h, tag) <==> MentionsTag(h[1..], tag) by {
          if MentionsTag(h, tag) {
            var i :| 0 <= i < |h| && h[i].name.TagStat? && h[i].name.tag == tag;
            assert h[1..][i - 1] == h[i];
          }
          if MentionsTag(h[1..], tag) {
            var i :| 0 <= i < |h[1..]| && h[1..][i].name.TagStat? && h[1..][i].name.tag == tag;
            assert h[i + 1] == h[1..][i];
          }
        }
        DirectionSnoc(h[1..], x, tag);
      }
    }
  }

  lemma {:induction false} TagNotMentioned(stats: seq<Stat>, tag: string)
    requires !MentionsTag(stats, tag)
    ensures LastOfTag(stats, tag, false) == 0 && LastOfTag(stats, tag, true) == 0
  {
    if |stats| == 0 {
    } else {
      var h, x := stats[..|stats| - 1], stats[|stats| - 1];
      TagSnoc(h, x, tag);
      assert stats == h + [x];
      TagNotMentioned(h, tag);
    }
  }

  lemma NextTagStat(stats: seq<Stat>, i: nat, m: map<string, TagTraffic>, m': map<string, TagTraffic>)
    requires i < |stats| && AggregatedTags(stats[..i], m)
    requires !stats[i].name.TagStat? || stats[i].name.tag == "api" ==> m' == m
    requires stats[i].name.TagStat? && stats[i].name.tag != "api" ==>
               var n := stats[i].name;
               var r := if n.tag in m then m[n.tag] else TagTraffic(n.isInbound, n.tag, 0, 0);
               m' == m[n.tag := if n.isDown then r.(down := stats[i].value) else r.(up := stats[i].value)]
    ensures AggregatedTags(stats[..i + 1], m')
  {
    var h, x, s := stats[..i], stats[i], stats[..i + 1];
    assert s[..i] == h && s == h + [x];
    forall tag
      ensures MentionsTag(s, tag) <==> MentionsTag(h, tag) || (x.name.TagStat? && x.name.tag == tag)
      ensures MentionsTag(s, tag) ==>
                FirstDirection(s, tag) == if MentionsTag(h, tag) then FirstDirection(h, tag) else x.name.TagStat? && x.name.isInbound
      ensures !MentionsTag(h, tag) ==> LastOfTag(h, tag, false) == 0 && LastOfTag(h, tag, true) == 0
    {
      TagSnoc(h, x, tag);
      if MentionsTag(s, tag) {
        DirectionSnoc(h, x, tag);
      }
      if !MentionsTag(h, tag) {
        TagNotMentioned(h, tag);
      }
    }
  }

  lemma MentionsSnoc(h: seq<Stat>, x: Stat, e: string)
    ensures Mentions(h + [x], e) <==> Mentions(h, e) || (x.name.UserStat? && x.name.email == e)
  {
    var s := h + [x];
    if Mentions(h, e) {
      var i :| 0 <= i < |h| && h[i].name.UserStat? && h[i].name.email == e;
      assert s[i] == h[i];
    }
    assert s[|h|] == x;
  }

  lemma {:induction false} NotMentioned(stats: seq<Stat>, e: string)
    requires !Mentions(stats, e)
    ensures LastValue(stats, UserStat(e, false)) == 0 && LastValue(stats, UserStat(e, true)) == 0
  {
    if |stats| == 0 {
    } else {
      var h, x := stats[..|stats| - 1], stats[|stats| - 1];
      MentionsSnoc(h, x, e);
      assert stats == h + [x];
      NotMentioned(h, e);
    }
  }

  lemma SliceIsAggregate(stats: seq<Stat>, m: map<string, Report>, reports: seq<Report>, keys: seq<string>)
    requires Aggregated(stats, m) && |keys| == |reports|
    requires forall i, j :: 0 <= i < j < |keys| ==> keys[i] != keys[j]
    requires forall i :: 0 <= i < |keys| ==> keys[i] in m && reports[i] == m[keys[i]]
    requires forall e :: e in m ==> e in keys
    ensures IsAggregate(stats, reports)
  {
    forall e | Mentions(stats, e)
      ensures IsReported(reports, e)
    {
      var i :| 0 <= i < |keys| && keys[i] == e;
      assert reports[i].email == e;
    }
  }

  lemma SliceIsTagAggregate(stats: seq<Stat>, m: map<string, TagTraffic>, tags: seq<TagTraffic>, keys: seq<string>)
    requires AggregatedTags(stats, m) && |keys| == |tags|
    requires forall i, j :: 0 <= i < j < |keys| ==> keys[i] != keys[j]
    requires forall i :: 0 <= i < |keys| ==> keys[i] in m && tags[i] == m[keys[i]]
    requires forall tag :: tag in m ==> tag in keys
    ensures IsTagAggregate(stats, tags)
  {
    forall tag | tag != "api" && MentionsTag(stats, tag)
      ensures exists i :: 0 <= i < |tags| && tags[i].tag == tag
    {
      var i :| 0 <= i < |keys| && keys[i] == tag;
      assert tags[i].tag == tag;
    }
  }

  // ----- the reports by the statistics themselves -----

  /** The last statistic of a user's link has the value v, or there is none and v is 0. */
  ghost predicate UserValue(stats: seq<Stat>, email: string, isDown: bool, v: int) {
    || (exists i :: 0 <= i < |stats| && stats[i] == Stat(UserStat(email, isDown), v) &&
                    forall k :: i < k < |stats| ==> stats[k].name != UserStat(email, isDown))
    || (v == 0 && forall k :: 0 <= k < |stats| ==> stats[k].name != UserStat(email, isDown))
  }

  /** Likewise for a tag, of an inbound or an outbound. */
  ghost predicate TagValue(stats: seq<Stat>, tag: string, isDown: bool, v: int) {
    || (exists i, isInbound :: 0 <= i < |stats| && stats[i] == Stat(TagStat(isInbound, tag, isDown), v) &&
                               forall k, b :: i < k < |stats| ==> stats[k].name != TagStat(b, tag, isDown))
    || (v == 0 && forall k, b :: 0 <= k < |stats| ==> stats[k].name != TagStat(b, tag, isDown))
  }

  /** The first statistic of a tag is at i. */
  ghost predicate TagOpens(stats: seq<Stat>, tag: string, i: int, isInbound: bool) {
    && 0 <= i < |stats| && (exists isDown :: stats[i].name == TagStat(isInbound, tag, isDown))
    && forall k, b, d :: 0 <= k < i ==> stats[k].name != TagStat(b, tag, d)
  }

  lemma {:induction false} UserValueIs(stats: seq<Stat>, email: string, isDown: bool)
    ensures UserValue(stats, email, isDown, LastValue(stats, UserStat(email, isDown)))
  {
    if |stats| == 0 {
    } else {
      var h, x := stats[..|stats| - 1], stats[|stats| - 1];
      UserValueIs(h, email, isDown);
      assert forall k :: 0 <= k < |h| ==> h[k] == stats[k];
    }
  }

  lemma {:induction false} TagValueIs(stats: seq<Stat>, tag: string, isDown: bool)
    ensures TagValue(stats, tag, isDown, LastOfTag(stats, tag, isDown))
  {
    if |stats| == 0 {
    } else {
      var h, x := stats[..|stats| - 1], stats[|stats| - 1];
      TagValueIs(h, tag, isDown);
      assert forall k :: 0 <= k < |h| ==> h[k] == stats[k];
      if x.name.TagStat? && x.name.tag == tag && x.name.isDown == isDown {
        assert stats[|stats| - 1] == Stat(TagStat(x.name.isInbound, tag, isDown), x.value);
      }
    }
  }

  lemma {:induction false} DirectionIs(stats: seq<Stat>, tag: string) returns (i: int)
    requires MentionsTag(stats, tag)
    ensures TagOpens(stats, tag, i, FirstDirection(stats, tag))
  {
    if stats[0].name.TagStat? && stats[0].name.tag == tag {
      i := 0;
      assert stats[0].name == TagStat(stats[0].name.isInbound, tag, stats[0].name.isDown);
    } else {
      var j := DirectionIs(stats[1..], tag);
      i := j + 1;
      var d :| stats[1..][j].name == TagStat(FirstDirection(stats, tag), tag, d);
      assert stats[i].name == TagStat(FirstDirection(stats, tag), tag, d);
      forall k, b, d' | 0 <= k < i
        ensures stats[k].name != TagStat(b, tag, d')
      {
        assert k > 0 ==> stats[k] == stats[1..][k - 1];
      }
    }
  }

  /** The email is in the statistics, and the counters are those of its links. */
  ghost predicate ReportOf(stats: seq<Stat>, r: Report) {
    && (exists i :: 0 <= i < |stats| && stats[i].name.UserStat? && stats[i].name.email == r.email)
    && UserValue(stats, r.email, false, r.up) && UserValue(stats, r.email, true, r.down)
  }

  /** The direction is that of the tag's first statistic, and the counters are those of its links. */
  ghost predicate TagReportOf(stats: seq<Stat>, r: TagTraffic) {
    && r.tag != "api" && (exists i :: TagOpens(stats, r.tag, i, r.isInbound))
    && TagValue(stats, r.tag, false, r.up) && TagValue(stats, r.tag, true, r.down)
  }

  /** One report for every email that the statistics name, with the last value of each of its links. */
  lemma ReportFields(stats: seq<Stat>, reports: seq<Report>)
    requires IsAggregate(stats, reports)
    ensures forall a, b :: 0 <= a < b < |reports| ==> reports[a].email != reports[b].email
    ensures forall i :: 0 <= i < |stats| && stats[i].name.UserStat? ==>
              exists j :: 0 <= j < |reports| && reports[j].email == stats[i].name.email
    ensures forall j :: 0 <= j < |reports| ==> ReportOf(stats, reports[j])
  {
    forall i | 0 <= i < |stats| && stats[i].name.UserStat?
      ensures exists j :: 0 <= j < |reports| && reports[j].email == stats[i].name.email
    {
      assert Mentions(stats, stats[i].name.email);
    }
    forall j | 0 <= j < |reports|
      ensures ReportOf(stats, reports[j])
    {
      assert Mentions(stats, reports[j].email);
      UserValueIs(stats, reports[j].email, false);
      UserValueIs(stats, reports[j].email, true);
    }
  }

  /** One report for every tag but the API's: the direction of its first statistic, the last value of each link. */
  lemma TagReportFields(stats: seq<Stat>, tags: seq<TagTraffic>)
    requires IsTagAggregate(stats, tags)
    ensures forall a, b :: 0 <= a < b < |tags| ==> tags[a].tag != tags[b].tag
    ensures forall i :: 0 <= i < |stats| && stats[i].name.TagStat? && stats[i].name.tag != "api" ==>
              exists j :: 0 <= j < |tags| && tags[j].tag == stats[i].name.tag
    ensures forall j :: 0 <= j < |tags| ==> TagReportOf(stats, tags[j])
  {
    forall i | 0 <= i < |stats| && stats[i].name.TagStat? && stats[i].name.tag != "api"
      ensures exists j :: 0 <= j < |tags| && tags[j].tag == stats[i].name.tag
    {
      assert MentionsTag(stats, stats[i].name.tag);
    }
    forall j | 0 <= j < |tags|
      ensures TagReportOf(stats, tags[j])
    {
      var i := DirectionIs(stats, tags[j].tag);
      TagValueIs(stats, tags[j].tag, false);
      TagValueIs(stats, tags[j].tag, true);
    }
  }

  // ----- tags of inbounds and outbounds -----

  /** The configuration's statistics: tags of inbounds and of outbounds, each name once, in any order. */
  ghost predicate Drawn(stats: seq<Stat>, ins: set<string>, outs: set<string>) {
    && (forall i :: 0 <= i < |stats| && stats[i].name.TagStat? ==>
          if stats[i].name.isInbound then stats[i].name.tag in ins else stats[i].name.tag in outs)
    && (forall i, j :: 0 <= i < j < |stats| && stats[i].name.TagStat? ==> stats[i].name != stats[j].name)
  }

  /** Both links of the inbound are among the statistics. */
  ghost predicate HasOwn(stats: seq<Stat>, tag: string) {
    && (exists i :: 0 <= i < |stats| && stats[i].name == TagStat(true, tag, false))
    && (exists i :: 0 <= i < |stats| && stats[i].name == TagStat(true, tag, true))
  }

  /** The tag's report is an inbound's, with the inbound's own values. */
  ghost predicate OwnReport(stats: seq<Stat>, tag: string) {
    && MentionsTag(stats, tag) && FirstDirection(stats, tag)
    && LastOfTag(stats, tag, false) == LastValue(stats, TagStat(true, tag, false))
    && LastOfTag(stats, tag, true) == LastValue(stats, TagStat(true, tag, true))
  }

  lemma {:induction false} TagValueIsOwn(stats: seq<Stat>, tag: string, isDown: bool)
    requires forall i :: 0 <= i < |stats| && stats[i].name.TagStat? && stats[i].name.tag == tag ==> stats[i].name.isInbound
    ensures LastOfTag(stats, tag, isDown) == LastValue(stats, TagStat(true, tag, isDown))
    ensures MentionsTag(stats, tag) ==> FirstDirection(stats, tag)
  {
    if |stats| == 0 {
    } else {
      var h, x := stats[..|stats| - 1], stats[|stats| - 1];
      assert stats == h + [x];
      TagValueIsOwn(h, tag, isDown);
      if MentionsTag(stats, tag) {
        DirectionSnoc(h, x, tag);
      }
    }
  }

  /**
   In whatever order and with whatever values the statistics come, an inbound's report is its own if
   and only if no outbound has its tag.
   */
  lemma OwnReportIff(ins: set<string>, outs: set<string>, tag: string)
    requires tag in ins
    ensures (forall stats :: Drawn(stats, ins, outs) && HasOwn(stats, tag) ==> OwnReport(stats, tag)) <==> tag !in outs
  {
    if tag !in outs {
      forall stats | Drawn(stats, ins, outs) && HasOwn(stats, tag)
        ensures OwnReport(stats, tag)
      {
        TagValueIsOwn(stats, tag, false);
        TagValueIsOwn(stats, tag, true);
      }
    } else {
      SharedTagMixes(ins, outs, tag, 0, 1, 0, 0);
    }
  }

  /** The links of an inbound and of an outbound with the same tag. */
  function TwoLinks(isInbound: bool, tag: string, up: int, down: int): seq<Stat> {
    [Stat(TagStat(isInbound, tag, false), up), Stat(TagStat(isInbound, tag, true), down)]
  }

  /**
   A shared tag, in both orders. When the outbound comes last its values stand for the inbound's;
   when it comes first the report is an outbound's.
   */
  lemma SharedTagMixes(ins: set<string>, outs: set<string>, tag: string, up: int, up': int, down: int, down': int)
    requires tag in ins && tag in outs
    ensures var last := TwoLinks(true, tag, up, down) + TwoLinks(false, tag, up', down');
            && Drawn(last, ins, outs) && HasOwn(last, tag) && MentionsTag(last, tag) && FirstDirection(last, tag)
            && LastOfTag(last, tag, false) == up' && LastOfTag(last, tag, true) == down'
            && (OwnReport(last, tag) <==> up' == up && down' == down)
    ensures var first := TwoLinks(false, tag, up', down') + TwoLinks(true, tag, up, down);
            && Drawn(first, ins, outs) && HasOwn(first, tag) && MentionsTag(first, tag) && !FirstDirection(first, tag)
            && !OwnReport(first, tag)
  {
    FourLinks(tag, true, up, down, up', down');
    FourLinks(tag, false, up', down', up, down);
  }

  lemma FourLinks(tag: string, isInbound: bool, up: int, down: int, up': int, down': int)
    ensures var stats := TwoLinks(isInbound, tag, up, down) + TwoLinks(!isInbound, tag, up', down');
            && HasOwn(stats, tag) && MentionsTag(stats, tag) && FirstDirection(stats, tag) == isInbound
            && LastOfTag(stats, tag, false) == up' && LastOfTag(stats, tag, true) == down'
            && LastValue(stats, TagStat(true, tag, false)) == (if isInbound then up else up')
            && LastValue(stats, TagStat(true, tag, true)) == (if isInbound then down else down')
  {
    var stats := TwoLinks(isInbound, tag, up, down) + TwoLinks(!isInbound, tag, up', down');
    assert stats[0].name == TagStat(isInbound, tag, false) && stats[1].name == TagStat(isInbound, tag, true);
    assert stats[2].name == TagStat(!isInbound, tag, false) && stats[3].name == TagStat(!isInbound, tag, true);
    LastOfFour(stats, TagStat(true, tag, false));
    LastOfFour(stats, TagStat(true, tag, true));
    assert stats[..3][2] == stats[2];
  }

  lemma LastOfFour(stats: seq<Stat>, name: StatName)
    requires |stats| == 4
    ensures LastValue(stats, name) ==
            if stats[3].name == name then stats[3].value
            else if stats[2].name == name then stats[2].value
            else if stats[1].name == name then stats[1].value
            else if stats[0].name == name then stats[0].value else 0
  {
    var s3 := stats[..3];
    var s2 := s3[..2];
    var s1 := s2[..1];
    assert LastValue(s1[..0], name) == 0;
    assert LastValue(s1, name) == if stats[0].name == name then stats[0].value else 0;
    assert LastValue(s2, name) == if stats[1].name == name then stats[1].value else LastValue(s1, name);
    assert LastValue(s3, name) == if stats[2].name == name then stats[2].value else LastValue(s2, name);
  }

  // ----- what an inbound counts -----

  lemma {:induction false} CountOther(inb: Inbound, tags: seq<TagTraffic>)
    requires forall i :: 0 <= i < |tags| ==> tags[i].tag != inb.tag
    ensures CountTag(inb, tags) == inb
  {
    if |tags| == 0 {
    } else {
      CountOther(inb, tags[..|tags| - 1]);
    }
  }

  /** With one report per tag an inbound counts that of its own tag. */
  lemma {:induction false} CountTagOne(inb: Inbound, tags: seq<TagTraffic>, i: nat)
    requires i < |tags| && tags[i].tag == inb.tag
    requires forall i, j :: 0 <= i < j < |tags| ==> tags[i].tag != tags[j].tag
    ensures CountTag(inb, tags) == CountOne(inb, tags[i])
    decreases |tags|
  {
    var h := tags[..|tags| - 1];
    if i < |h| {
      assert h[i] == tags[i];
      CountTagOne(inb, h, i);
    } else {
      CountOther(inb, h);
    }
  }

  /** The inbound's own two statistics. */
  function OwnCount(inb: Inbound, stats: seq<Stat>): Inbound {
    var up := LastValue(stats, TagStat(true, inb.tag, false));
    var down := LastValue(stats, TagStat(true, inb.tag, true));
    inb.(up := inb.up + up, down := inb.down + down, allTime := inb.allTime + (up + down))
  }

  /** What is counted for an inbound: its entry, unless an outbound's statistic opened it. */
  lemma InboundCounts(stats: seq<Stat>, tags: seq<TagTraffic>, inb: Inbound)
    requires IsTagAggregate(stats, tags) && inb.tag != "api" && MentionsTag(stats, inb.tag)
    ensures CountTag(inb, tags) ==
            CountOne(inb, TagTraffic(FirstDirection(stats, inb.tag), inb.tag,
                                     LastOfTag(stats, inb.tag, false), LastOfTag(stats, inb.tag, true)))
    ensures OwnReport(stats, inb.tag) ==> CountTag(inb, tags) == OwnCount(inb, stats)
    ensures !FirstDirection(stats, inb.tag) ==> CountTag(inb, tags) == inb
  {
    var i :| 0 <= i < |tags| && tags[i].tag == inb.tag;
    CountTagOne(inb, tags, i);
  }

  /**
   Traffic of inbounds is conserved: an inbound counts its own statistics, whatever their order and
   values, if and only if no outbound has its tag.
   */
  lemma InboundTrafficIff(ins: set<string>, outs: set<string>, inb: Inbound)
    requires inb.tag in ins && inb.tag != "api"
    ensures (forall stats, tags :: Drawn(stats, ins, outs) && HasOwn(stats, inb.tag) && IsTagAggregate(stats, tags) ==>
                                     CountTag(inb, tags) == OwnCount(inb, stats)) <==> inb.tag !in outs
  {
    if inb.tag !in outs {
      OwnReportIff(ins, outs, inb.tag);
      forall stats, tags | Drawn(stats, ins, outs) && HasOwn(stats, inb.tag) && IsTagAggregate(stats, tags)
        ensures CountTag(inb, tags) == OwnCount(inb, stats)
      {
        assert OwnReport(stats, inb.tag);
        InboundCounts(stats, tags, inb);
      }
    } else {
      var stats := TwoLinks(false, inb.tag, 0, 0) + TwoLinks(true, inb.tag, 1, 0);
      SharedTagMixes(ins, outs, inb.tag, 1, 0, 0, 0);
      FourLinks(inb.tag, false, 0, 0, 1, 0);
      var tags := [TagTraffic(false, inb.tag, 1, 0)];
      OneTagAggregate(stats, tags, inb.tag);
      InboundCounts(stats, tags, inb);
      assert CountTag(inb, tags) != OwnCount(inb, stats);
    }
  }

  lemma OneTagAggregate(stats: seq<Stat>, tags: seq<TagTraffic>, tag: string)
    requires forall i :: 0 <= i < |stats| ==> stats[i].name.TagStat? && stats[i].name.tag == tag
    requires tag != "api" && MentionsTag(stats, tag)
    requires tags == [TagTraffic(FirstDirection(stats, tag), tag, LastOfTag(stats, tag, false), LastOfTag(stats, tag, true))]
    ensures IsTagAggregate(stats, tags)
  {
    assert tags[0].tag == tag;
  }

  // ----- sums over rows -----

  ghost function Sum(keys: set<RowKey>, f: RowKey -> int): int
    decreases keys
  {
    if !(exists k :: k in keys) then 0
    else
      var k :| k in keys;
      f(k) + Sum(keys - {k}, f)
  }

  lemma {:induction false} SumSplit(keys: set<RowKey>, f: RowKey -> int, k: RowKey)
    requires k in keys
    ensures Sum(keys, f) == f(k) + Sum(keys - {k}, f)
    decreases keys
  {
    var x :| x in keys && Sum(keys, f) == f(x) + Sum(keys - {x}, f);
    if x == k {
    } else {
      SumSplit(keys - {x}, f, k);
      SumSplit(keys - {k}, f, x);
      assert keys - {x} - {k} == keys - {k} - {x};
    }
  }

  lemma {:induction false} SumAdd(keys: set<RowKey>, f: RowKey -> int, g: RowKey -> int, h: RowKey -> int)
    requires forall k :: k in keys ==> f(k) == g(k) + h(k)
    ensures Sum(keys, f) == Sum(keys, g) + Sum(keys, h)
    decreases keys
  {
    if k :| k in keys {
      SumSplit(keys, f, k);
      SumSplit(keys, g, k);
      SumSplit(keys, h, k);
      SumAdd(keys - {k}, f, g, h);
    }
  }

  lemma {:induction false} SumZero(keys: set<RowKey>, f: RowKey -> int)
    requires forall k :: k in keys ==> f(k) == 0
    ensures Sum(keys, f) == 0
    decreases keys
  {
    if k :| k in keys {
      SumSplit(keys, f, k);
      SumZero(keys - {k}, f);
    }
  }

  /** The lifetime totals of all rows. */
  ghost function TotalAllTime(t: Tables): int {
    Sum(t.traffics.Keys, k => if k in t.traffics then t.traffics[k].allTime else 0)
  }

  // ----- conservation -----

  ghost predicate UniqueNames(stats: seq<Stat>) {
    forall i, j :: 0 <= i < j < |stats| && stats[i].name.UserStat? ==> stats[i].name != stats[j].name
  }

  /** What the statistics say of one email. */
  function OfEmail(stats: seq<Stat>, email: string): int {
    if |stats| == 0 then 0
    else
      var x := stats[|stats| - 1];
      OfEmail(stats[..|stats| - 1], email) + if x.name.UserStat? && x.name.email == email then x.value else 0
  }

  /** The uplink and downlink that the statistics report for emails that have a row. */
  function OfKnownEmails(stats: seq<Stat>, emails: set<string>): int {
    if |stats| == 0 then 0
    else
      var x := stats[|stats| - 1];
      OfKnownEmails(stats[..|stats| - 1], emails) + if x.name.UserStat? && x.name.email in emails then x.value else 0
  }

  /** With unique names an email's up and down values are all that the statistics say of it. */
  lemma {:induction false} LastValuesAreAll(stats: seq<Stat>, email: string)
    requires UniqueNames(stats)
    ensures LastValue(stats, UserStat(email, false)) + LastValue(stats, UserStat(email, true)) == OfEmail(stats, email)
  {
    if |stats| == 0 {
    } else {
      var h, x := stats[..|stats| - 1], stats[|stats| - 1];
      LastValuesAreAll(h, email);
      if x.name.UserStat? && x.name.email == email {
        AbsentName(h, x.name);
      }
    }
  }

  lemma {:induction false} AbsentName(stats: seq<Stat>, name: StatName)
    requires forall i :: 0 <= i < |stats| ==> stats[i].name != name
    ensures LastValue(stats, name) == 0
  {
    if |stats| == 0 {
    } else {
      AbsentName(stats[..|stats| - 1], name);
    }
  }

  /** Every email has at most one row. */
  ghost predicate UniqueRowEmails(keys: set<RowKey>) {
    forall k, k' :: k in keys && k' in keys && k.1 == k'.1 ==> k == k'
  }

  ghost function RowEmails(keys: set<RowKey>): set<string> {
    set k | k in keys :: k.1
  }

  /** Summing what is said of every row's email sums what is said of known emails. */
  lemma {:induction false} SumOfEmails(keys: set<RowKey>, stats: seq<Stat>)
    requires UniqueRowEmails(keys)
    ensures Sum(keys, (k: RowKey) => OfEmail(stats, k.1)) == OfKnownEmails(stats, RowEmails(keys))
    decreases |stats|
  {
    var f := (k: RowKey) => OfEmail(stats, k.1);
    if |stats| == 0 {
      SumZero(keys, f);
    } else {
      var h, x := stats[..|stats| - 1], stats[|stats| - 1];
      var g := (k: RowKey) => OfEmail(h, k.1);
      var d := (k: RowKey) => if x.name.UserStat? && x.name.email == k.1 then x.value else 0;
      SumOfEmails(keys, h);
      SumAdd(keys, f, g, d);
      SumOfOne(keys, x);
    }
  }

  lemma SumOfOne(keys: set<RowKey>, x: Stat)
    requires UniqueRowEmails(keys)
    ensures Sum(keys, (k: RowKey) => if x.name.UserStat? && x.name.email == k.1 then x.value else 0)
         == if x.name.UserStat? && x.name.email in RowEmails(keys) then x.value else 0
  {
    var d := (k: RowKey) => if x.name.UserStat? && x.name.email == k.1 then x.value else 0;
    if x.name.UserStat? && x.name.email in RowEmails(keys) {
      var k :| k in keys && k.1 == x.name.email;
      SumSplit(keys, d, k);
      SumZero(keys - {k}, d);
    } else {
      SumZero(keys, d);
    }
  }

  lemma {:induction false} FirstReportOfAggregate(stats: seq<Stat>, reports: seq<Report>, email: string)
    requires IsAggregate(stats, reports) && UniqueNames(stats)
    ensures Added(reports, email) == OfEmail(stats, email)
  {
    LastValuesAreAll(stats, email);
    if IsReported(reports, email) {
      FirstReportIsOne(reports, email);
    } else {
      assert !Mentions(stats, email);
      NotMentioned(stats, email);
    }
  }

  /**
   One tick raises the sum of the lifetime totals by exactly the uplink and downlink that the core
   reported for the emails that have a row.
   */
  lemma TickConserves(t: Tables, tags: seq<TagTraffic>, stats: seq<Stat>, reports: seq<Report>, now: int)
    requires UniqueRowEmails(t.traffics.Keys) && UniqueNames(stats) && IsAggregate(stats, reports)
    ensures TotalAllTime(Tick(t, tags, reports, now))
         == TotalAllTime(t) + OfKnownEmails(stats, RowEmails(t.traffics.Keys))
  {
    var u := Tick(t, tags, reports, now);
    var keys := t.traffics.Keys;
    TickShape(t, tags, reports, now);
    var f := (k: RowKey) => if k in u.traffics then u.traffics[k].allTime else 0;
    var g := (k: RowKey) => if k in t.traffics then t.traffics[k].allTime else 0;
    var h := (k: RowKey) => OfEmail(stats, k.1);
    forall k | k in keys
      ensures f(k) == g(k) + h(k)
    {
      TickAllTime(t, tags, reports, now, k);
      FirstReportOfAggregate(stats, reports, k.1);
    }
    SumAdd(keys, f, g, h);
    SumOfEmails(keys, stats);
  }

  /** On clean tables every email has one row. */
  lemma CleanIsUnique(t: Tables)
    requires Clean(t)
    ensures UniqueRowEmails(t.traffics.Keys)
  {
    forall k, k' | k in t.traffics && k' in t.traffics && k.1 == k'.1
      ensures k == k'
    {
      Ledger.RowHasClient(t, k);
      Ledger.RowHasClient(t, k');
      assert k.0 == k'.0 by {
        var e := k.1;
        assert HasEmail(t.inbounds[k.0].clients, e) && HasEmail(t.inbounds[k'.0].clients, e);
      }
      assert k == (k.0, k.1) && k' == (k'.0, k'.1);
    }
  }
}
