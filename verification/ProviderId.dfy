/** The provider ID of a hybrid node and the pattern that reads the node name back from it. */
module ProviderId {
  import opened Wrappers
  import opened Text

  const PREFIX := "eks-hybrid:///"

  function GetHybridProviderId(region: string, cluster: string, node: string): string
  {
    PREFIX + region + "/" + cluster + "/" + node
  }

  // ----- The pattern ^eks-hybrid:///[^/]+/[^/]+/(.+)$ -----

  predicate IsSegment(s: string)
  {
    s != "" && '/' !in s
  }

  /** What (.+)$ accepts: a dot does not match a newline, and $ is the end of the text. */
  predicate IsName(s: string)
  {
    s != "" && '\n' !in s
  }

  /** The text matches the pattern with this last group. */
  ghost predicate Matches(id: string, name: string)
  {
    exists region, cluster ::
      && region != "" && '/' !in region && cluster != "" && '/' !in cluster && name != "" && '\n' !in name
      && id == "eks-hybrid:///" + region + "/" + cluster + "/" + name
  }

  /** A non-empty run without slashes up to a slash, and what follows that slash. */
  function CutSegment(s: string): (r: Option<(string, string)>)
    ensures r.Some? ==> IsSegment(r.value.0) && s == r.value.0 + "/" + r.value.1
  {
    var i := Find(s, '/');
    if i == 0 || i == |s| then None
    else
      assert s == s[..i] + [s[i]] + s[i + 1..];
      Some((s[..i], s[i + 1..]))
  }

  function GetNodeName(id: string): Option<string>
  {
    if !HasPrefix(id, PREFIX) then None
    else
      match CutSegment(id[|PREFIX|..])
      case None => None
      case Some((region, rest)) =>
        match CutSegment(rest)
        case None => None
        case Some((cluster, name)) => if IsName(name) then Some(name) else None
  }

  lemma CutSegmentAt(segment: string, rest: string)
    requires IsSegment(segment)
    ensures CutSegment(segment + "/" + rest) == Some((segment, rest))
  {
    var s := segment + "/" + rest;
    assert s == segment + ['/'] + rest;
    FindAt(segment, '/', rest);
    assert s[..|segment|] == segment && s[|segment| + 1..] == rest;
  }

  lemma AfterPrefix(region: string, cluster: string, node: string)
    ensures var id := GetHybridProviderId(region, cluster, node);
            HasPrefix(id, PREFIX) && id[|PREFIX|..] == region + "/" + (cluster + "/" + node)
  {
    assert GetHybridProviderId(region, cluster, node) == PREFIX + (region + "/" + (cluster + "/" + node));
  }

  lemma ReadsBack(region: string, cluster: string, node: string)
    requires IsSegment(region) && IsSegment(cluster) && IsName(node)
    ensures GetNodeName(GetHybridProviderId(region, cluster, node)) == Some(node)
  {
    AfterPrefix(region, cluster, node);
    CutSegmentAt(region, cluster + "/" + node);
    CutSegmentAt(cluster, node);
  }

  lemma WhatIsRead(id: string, region: string, cluster: string, name: string)
    requires HasPrefix(id, PREFIX)
    requires CutSegment(id[|PREFIX|..]) == Some((region, cluster + "/" + name))
    ensures id == GetHybridProviderId(region, cluster, name)
  {
    assert id == PREFIX + id[|PREFIX|..];
    assert id[|PREFIX|..] == region + "/" + (cluster + "/" + name);
    AfterPrefix(region, cluster, name);
    assert GetHybridProviderId(region, cluster, name) == PREFIX + (region + "/" + (cluster + "/" + name));
  }

  /** The reader finds a name exactly when the pattern matches with that name. */
  lemma GetNodeNameIsThePattern(id: string, name: string)
    ensures GetNodeName(id) == Some(name) <==> Matches(id, name)
  {
    if GetNodeName(id) == Some(name) {
      var (region, rest) := CutSegment(id[|PREFIX|..]).value;
      var (cluster, name') := CutSegment(rest).value;
      WhatIsRead(id, region, cluster, name);
      assert IsSegment(region) && IsSegment(cluster);
    }
    if Matches(id, name) {
      var region, cluster :|
        && region != "" && '/' !in region && cluster != "" && '/' !in cluster && name != "" && '\n' !in name
        && id == "eks-hybrid:///" + region + "/" + cluster + "/" + name;
      ReadsBack(region, cluster, name);
    }
  }

  // ----- Round trip -----

  lemma {:induction false} FindFirst(s: string, rest: string)
    requires '/' in s
    ensures Find(s + rest, '/') == Find(s, '/') < |s|
  {
    assert (s + rest)[0] == s[0];
    if s[0] != '/' {
      assert (s + rest)[1..] == s[1..] + rest;
      FindFirst(s[1..], rest);
    }
  }

  /** Cutting at an ill-formed segment fails or leaves some of it in front of what follows. */
  lemma CutBadSegment(segment: string, rest: string) returns (left: string)
    requires !IsSegment(segment)
    ensures var r := CutSegment(segment + "/" + rest);
            r.None? || r.value.1 == left + "/" + rest
  {
    var s := segment + "/" + rest;
    if segment == "" {
      left := "";
    } else {
      assert s == segment + ("/" + rest);
      FindFirst(segment, "/" + rest);
      var i := Find(s, '/');
      left := segment[i + 1..];
      assert s[i + 1..] == left + "/" + rest;
    }
  }

  /** With any text in front of a slash, cutting leaves at least what follows the slash. */
  lemma CutLeavesTheRest(s: string, rest: string)
    ensures var r := CutSegment(s + "/" + rest);
            r.None? || |r.value.1| >= |rest|
  {
    if IsSegment(s) {
      CutSegmentAt(s, rest);
    } else {
      var _ := CutBadSegment(s, rest);
    }
  }

  /**
   Reading the name back from a printed ID gives the node name exactly when region and cluster are non-empty
   and free of slashes and the name is non-empty and has no newline; the name itself may contain slashes.
   */
  lemma RoundTripIff(region: string, cluster: string, node: string)
    ensures GetNodeName(GetHybridProviderId(region, cluster, node)) == Some(node)
            <==> region != "" && '/' !in region && cluster != "" && '/' !in cluster && node != "" && '\n' !in node
  {
    AfterPrefix(region, cluster, node);
    if !IsSegment(region) {
      var left := CutBadSegment(region, cluster + "/" + node);
      CutLeavesTheRest(left, cluster + "/" + node);
    } else {
      CutSegmentAt(region, cluster + "/" + node);
      if !IsSegment(cluster) {
        var _ := CutBadSegment(cluster, node);
      } else if IsName(node) {
        ReadsBack(region, cluster, node);
      } else {
        CutSegmentAt(cluster, node);
      }
    }
  }

  /** The parts of an ID are the region, the cluster and the node name, in this order. */
  lemma PartsOfId(region: string, cluster: string, node: string)
    requires IsSegment(region) && IsSegment(cluster)
    ensures var id := GetHybridProviderId(region, cluster, node);
            && "eks-hybrid:///" <= id
            && CutSegment(id[|"eks-hybrid:///"|..]) == Some((region, cluster + "/" + node))
            && CutSegment(cluster + "/" + node) == Some((cluster, node))
  {
    AfterPrefix(region, cluster, node);
    CutSegmentAt(region, cluster + "/" + node);
    CutSegmentAt(cluster, node);
  }

  /** An ID determines the region, the cluster and the node name it was printed from. */
  lemma IdIsInjective(r1: string, c1: string, n1: string, r2: string, c2: string, n2: string)
    requires IsSegment(r1) && IsSegment(c1) && IsSegment(r2) && IsSegment(c2)
    requires GetHybridProviderId(r1, c1, n1) == GetHybridProviderId(r2, c2, n2)
    ensures r1 == r2 && c1 == c2 && n1 == n2
  {
    AfterPrefix(r1, c1, n1);
    AfterPrefix(r2, c2, n2);
    CutSegmentAt(r1, c1 + "/" + n1);
    CutSegmentAt(r2, c2 + "/" + n2);
    CutSegmentAt(c1, n1);
    CutSegmentAt(c2, n2);
  }
}
