/**
 Cluster details read from the EKS API, cached, and handed out as deep copies. Details are objects with a
 byte array and an optional boolean of their own, so that aliasing is what is at stake.
 */
module ClusterCache {
  import opened Wrappers

  class BoolCell {
    var value: bool

    constructor (value: bool)
      ensures this.value == value
    {
      this.value := value;
    }
  }

  /** The contents of a details object, without its identity. */
  datatype Details = Details(
    name: string, region: string, endpoint: string, ca: Option<seq<byte>>, cidr: string,
    outpost: Option<bool>, id: string)
  {
    predicate Complete()
    {
      endpoint != "" && ca.Some? && cidr != ""
    }
  }

  class ClusterDetails {
    var name: string
    var region: string
    var apiServerEndpoint: string
    var certificateAuthority: array?<byte>
    var cidr: string
    var enableOutpost: BoolCell?
    var id: string

    constructor ()
      ensures certificateAuthority == null && enableOutpost == null
    {
      name, region, apiServerEndpoint, cidr, id := "", "", "", "", "";
      certificateAuthority, enableOutpost := null, null;
    }

    ghost function Footprint(): set<object>
      reads this
    {
      {this}
      + (if certificateAuthority == null then {} else {certificateAuthority})
      + (if enableOutpost == null then {} else {enableOutpost})
    }

    ghost function Value(): Details
      reads this, certificateAuthority, enableOutpost
    {
      Details(name, region, apiServerEndpoint,
              if certificateAuthority == null then None else Some(certificateAuthority[..]),
              cidr,
              if enableOutpost == null then None else Some(enableOutpost.value),
              id)
    }

    method Snapshot() returns (v: Details)
      ensures v == Value()
    {
      var ca := if certificateAuthority == null then None else Some(certificateAuthority[..]);
      var outpost := if enableOutpost == null then None else Some(enableOutpost.value);
      return Details(name, region, apiServerEndpoint, ca, cidr, outpost, id);
    }

    predicate Complete()
      reads this, certificateAuthority, enableOutpost
      ensures Complete() <==> Value().Complete()
    {
      apiServerEndpoint != "" && certificateAuthority != null && cidr != ""
    }

    /** Copies everything into out, with a byte array and a boolean cell that are new. */
    method DeepCopyInto(out: ClusterDetails)
      modifies out
      ensures out.Value() == old(Value())
      ensures fresh(out.Footprint() - {out})
    {
      var ca, outpost := certificateAuthority, enableOutpost;
      out.name, out.region, out.apiServerEndpoint := name, region, apiServerEndpoint;
      out.certificateAuthority, out.cidr, out.enableOutpost, out.id := ca, cidr, outpost, id;
      if ca != null {
        var copy := new byte[ca.Length](i requires 0 <= i < ca.Length reads ca => ca[i]);
        assert copy[..] == ca[..];
        out.certificateAuthority := copy;
      }
      if outpost != null {
        out.enableOutpost := new BoolCell(outpost.value);
      }
    }

    method DeepCopy() returns (out: ClusterDetails)
      ensures fresh(out.Footprint()) && out.Value() == Value()
    {
      out := new ClusterDetails();
      DeepCopyInto(out);
    }
  }

  // ----- The API -----

  datatype Description = Description(active: bool, endpoint: string, caText: string, cidr: string)

  /** The EKS API for one cluster: a call may fail, and all answers are the same description. */
  class EksApi {
    const description: Description
    var answered: nat
    ghost var refused: nat  // calls without an answer

    constructor (description: Description)
      ensures this.description == description && answered == 0 && refused == 0
    {
      this.description, answered, refused := description, 0, 0;
    }

    method DescribeCluster() returns (r: Option<Description>)
      modifies this
      ensures r.Some? ==> r.value == description && answered == old(answered) + 1 && refused == old(refused)
      ensures r.None? ==> answered == old(answered) && refused == old(refused) + 1
    {
      var ok: bool := *;
      if !ok {
        refused := refused + 1;
        return None;
      }
      answered := answered + 1;
      return Some(description);
    }
  }

  // Base64 decoding, which fails on some texts.
  type Decoder = string -> Option<seq<byte>>

  /** The user's details with only the missing fields taken from the description. */
  function Fill(v: Details, d: Description, decode: Decoder): Details
  {
    v.(endpoint := if v.endpoint == "" then d.endpoint else v.endpoint,
       ca := if v.ca.None? then decode(d.caText) else v.ca,
       cidr := if v.cidr == "" then d.cidr else v.cidr)
  }

  /** Whether the API's answer can be used: the cluster is active and a needed authority decodes. */
  predicate Usable(v: Details, d: Description, decode: Decoder)
  {
    d.active && (v.ca.None? ==> decode(d.caText).Some?)
  }

  /** The details a read gives for these user settings when it succeeds. */
  function Expected(v: Details, d: Description, decode: Decoder): Details
  {
    if v.Complete() then v else Fill(v, d, decode)
  }

  /** Fields that the user left out come from the cluster, each from its own part of the description. */
  lemma MissingFieldsComeFromTheCluster(v: Details, d: Description, decode: Decoder)
    ensures var e := Expected(v, d, decode);
            && (v.endpoint == "" ==> e.endpoint == d.endpoint)
            && (v.ca.None? ==> e.ca == decode(d.caText))
            && (v.cidr == "" ==> e.cidr == d.cidr)
  {
  }

  /** The cluster must be active, and its authority must decode unless the user gives one. */
  lemma UsableExactly(v: Details, d: Description, decode: Decoder)
    ensures !d.active ==> !Usable(v, d, decode)
    ensures d.active ==> (Usable(v, d, decode) <==> v.ca.Some? || decode(d.caText).Some?)
  {
  }

  lemma UserFieldsAreKept(v: Details, d: Description, decode: Decoder)
    ensures var e := Expected(v, d, decode);
            && (v.endpoint != "" ==> e.endpoint == v.endpoint)
            && (v.ca.Some? ==> e.ca == v.ca)
            && (v.cidr != "" ==> e.cidr == v.cidr)
            && e.name == v.name && e.region == v.region && e.outpost == v.outpost && e.id == v.id
  {
  }

  /** A copy of the node with its missing fields taken from the description, if the authority it needs decodes. */
  method FillFrom(node: ClusterDetails, cluster: Description, decode: Decoder) returns (r: ClusterDetails?)
    ensures r == null <==> node.certificateAuthority == null && decode(cluster.caText).None?
    ensures r != null ==> fresh(r.Footprint()) && r.Value() == Fill(node.Value(), cluster, decode)
  {
    var details := node.DeepCopy();
    if details.apiServerEndpoint == "" {
      details.apiServerEndpoint := cluster.endpoint;
    }
    if details.certificateAuthority == null {
      var decoded := decode(cluster.caText);
      if decoded.None? {
        return null;
      }
      var bytes := new byte[|decoded.value|](i requires 0 <= i < |decoded.value| => decoded.value[i]);
      assert bytes[..] == decoded.value;
      details.certificateAuthority := bytes;
    }
    if details.cidr == "" {
      details.cidr := cluster.cidr;
    }
    return details;
  }

  method ReadEksClusterDetails(api: EksApi, node: ClusterDetails, decode: Decoder) returns (r: ClusterDetails?)
    modifies api
    ensures r != null ==> fresh(r.Footprint()) && r.Value() == Expected(node.Value(), api.description, decode)
    ensures node.Complete() ==> r != null && api.answered == old(api.answered)
    ensures !node.Complete() && r != null ==>
              Usable(node.Value(), api.description, decode) && api.answered == old(api.answered) + 1
    ensures old(api.answered) <= api.answered <= old(api.answered) + 1
    ensures api.answered > old(api.answered) && Usable(node.Value(), api.description, decode) ==> r != null
    ensures old(api.refused) <= api.refused
    ensures api.answered + api.refused == old(api.answered + api.refused) + (if node.Complete() then 0 else 1)
  {
    if node.apiServerEndpoint != "" && node.certificateAuthority != null && node.cidr != "" {
      r := node.DeepCopy();
      return;
    }
    var cluster := api.DescribeCluster();
    if cluster.None? {
      return null;
    }
    if !cluster.value.active {
      return null;
    }
    r := FillFrom(node, cluster.value, decode);
  }

  // ----- The caching provider -----

  class ClusterProvider {
    const api: EksApi
    const decode: Decoder
    var cache: ClusterDetails?

    constructor (api: EksApi, decode: Decoder)
      ensures this.api == api && this.decode == decode && cache == null
    {
      this.api, this.decode, cache := api, decode, null;
    }

    /** The objects that only the provider holds. */
    ghost function Repr(): set<object>
      reads this, cache
    {
      {this} + if cache == null then {} else cache.Footprint()
    }

    ghost function Cached(): Option<Details>
      reads this, cache, if cache == null then {} else cache.Footprint()
    {
      if cache == null then None else Some(cache.Value())
    }

    /** Reads through to the API and keeps a copy of the result. */
    method ReadAndFill(node: ClusterDetails) returns (r: ClusterDetails?)
      requires api != this as object && cache == null && !node.Complete()
      modifies this, api
      ensures r != null ==> fresh(r.Footprint()) && r.Footprint() !! Repr()
      ensures fresh(Repr() - {this})
      ensures r != null ==> r.Value() == Expected(node.Value(), api.description, decode)
      ensures Cached() == if r == null then None else Some(r.Value())
      ensures r != null ==> api.answered == old(api.answered) + 1
      ensures r == null && Usable(node.Value(), api.description, decode) ==> api.answered == old(api.answered)
      ensures old(api.refused) <= api.refused && api.answered + api.refused == old(api.answered + api.refused) + 1
    {
      r := ReadEksClusterDetails(api, node, decode);
      if r != null {
        cache := r.DeepCopy();
      }
    }

    /**
     A complete node is copied; otherwise the cache answers once it is filled, whatever the node says, and the
     first successful read fills it. Every result is new and shares nothing with the cache.
     */
    method ReadClusterDetails(node: ClusterDetails) returns (r: ClusterDetails?)
      requires api != this as object
      modifies this, api
      ensures r != null ==> fresh(r.Footprint()) && r.Footprint() !! Repr()
      ensures fresh(Repr() - old(Repr()))
      ensures old(cache) != null ==> cache == old(cache) && Cached() == old(Cached())
      ensures node.Complete() ==> r != null && r.Value() == node.Value() && Cached() == old(Cached())
      ensures !node.Complete() && old(cache) != null ==> r != null && Some(r.Value()) == old(Cached())
      ensures !node.Complete() && old(cache) == null ==>
                Cached() == if r == null then None else Some(Expected(node.Value(), api.description, decode))
      ensures !node.Complete() && r != null ==> Cached() == Some(r.Value())
      ensures r != null && (node.Complete() || old(cache) != null) ==> api.answered == old(api.answered)
      ensures r == null || old(cache) != null || node.Complete() || api.answered == old(api.answered) + 1
      ensures r == null && Usable(node.Value(), api.description, decode) ==> api.answered == old(api.answered)
      ensures old(api.refused) <= api.refused
      ensures api.answered + api.refused
              == old(api.answered + api.refused) + (if node.Complete() || old(cache) != null then 0 else 1)
    {
      if node.apiServerEndpoint != "" && node.certificateAuthority != null && node.cidr != "" {
        r := node.DeepCopy();
        return;
      }
      if cache != null {
        r := cache.DeepCopy();
        return;
      }
      r := ReadAndFill(node);
    }
  }

  // ----- Any client -----

  /** One read by a client, which keeps the objects it is given. */
  method ReadOnce(provider: ClusterProvider, node: ClusterDetails) returns (r: Option<Details>, ghost given: set<object>)
    requires !node.Complete() && provider.api != provider as object
    requires provider !in node.Footprint() && provider.api !in node.Footprint()
    modifies provider, provider.api
    ensures fresh(given) && given !! provider.Repr()
    ensures fresh(provider.Repr() - old(provider.Repr()))
    ensures provider.Cached() == r
    ensures old(provider.cache) != null ==> r == old(provider.Cached()) && provider.api.answered == old(provider.api.answered)
    ensures old(provider.cache) == null && r.Some? ==>
              r.value == Expected(old(node.Value()), provider.api.description, provider.decode)
    ensures old(provider.cache) == null && Usable(old(node.Value()), provider.api.description, provider.decode) ==>
              provider.api.answered == old(provider.api.answered) + (if r.Some? then 1 else 0)
    ensures old(provider.api.refused) <= provider.api.refused
    ensures r.None? && Usable(old(node.Value()), provider.api.description, provider.decode) ==>
              provider.api.refused > old(provider.api.refused)
  {
    var details := provider.ReadClusterDetails(node);
    if details == null {
      return None, {};
    }
    var v := details.Snapshot();
    return Some(v), details.Footprint();
  }

  /**
   A read by a client that then does anything it likes to all objects it was ever given. The result is what
   the cache holds afterwards, and a filled cache answers without the API.
   */
  method ReadAndScribble(provider: ClusterProvider, node: ClusterDetails, ghost given: set<object>)
    returns (r: Option<Details>, ghost given': set<object>)
    requires !node.Complete() && provider.api != provider as object
    requires given !! provider.Repr() && provider.api !in given && given !! node.Footprint()
    requires provider !in node.Footprint() && provider.api !in node.Footprint()
    modifies provider, provider.api, given
    ensures given <= given' && fresh(given' - given) && given' !! provider.Repr()
    ensures fresh(provider.Repr() - old(provider.Repr()))
    ensures node.Footprint() == old(node.Footprint()) && node.Value() == old(node.Value())
    ensures provider.Cached() == r
    ensures old(provider.cache) != null ==> r == old(provider.Cached()) && provider.api.answered == old(provider.api.answered)
    ensures old(provider.cache) == null && r.Some? ==>
              r.value == Expected(old(node.Value()), provider.api.description, provider.decode)
    ensures old(provider.cache) == null && Usable(old(node.Value()), provider.api.description, provider.decode) ==>
              provider.api.answered == old(provider.api.answered) + (if r.Some? then 1 else 0)
    ensures old(provider.api.refused) <= provider.api.refused
    ensures r.None? && Usable(old(node.Value()), provider.api.description, provider.decode) ==>
              provider.api.refused > old(provider.api.refused)
  {
    r, given' := ReadOnce(provider, node);
    given' := given + given';
    modify given';
  }

  /**
   What the reads of a session have in common: results with the same contents, none missing and no further
   answer of the API after the first, and, with a usable answer, no answer that did not give a result.
   */
  ghost predicate Consistent(results: seq<Option<Details>>, answered: seq<nat>, expected: Details, usable: bool, start: nat)
  {
    && |results| == |answered|
    && (forall i :: 0 <= i < |results| && results[i].Some? ==> results[i].value == expected)
    && (forall i, j :: 0 <= i < j < |results| && results[i].Some? ==> results[j].Some? && answered[j] == answered[i])
    && (usable ==> forall i :: 0 <= i < |results| ==> answered[i] == start + if results[i].Some? then 1 else 0)
  }

  /** The reads of a session for a node with these contents, against this cluster. */
  ghost predicate SessionSoFar(results: seq<Option<Details>>, answered: seq<nat>, v: Details, d: Description,
                               decode: Decoder, start: nat)
  {
    Consistent(results, answered, Expected(v, d, decode), Usable(v, d, decode), start)
  }

  ghost function LastOf(results: seq<Option<Details>>): Option<Details>
  {
    if results == [] then None else results[|results| - 1]
  }

  ghost function LastCount(answered: seq<nat>, start: nat): nat
  {
    if answered == [] then start else answered[|answered| - 1]
  }

  lemma ConsistentNext(results: seq<Option<Details>>, answered: seq<nat>, expected: Details, usable: bool, start: nat,
                       r: Option<Details>, a: nat)
    requires Consistent(results, answered, expected, usable, start)
    requires if results != [] && results[|results| - 1].Some? then r == results[|results| - 1] && a == answered[|results| - 1]
             else (r.Some? ==> r.value == expected) && (usable ==> a == start + if r.Some? then 1 else 0)
    ensures Consistent(results + [r], answered + [a], expected, usable, start)
  {
  }

  /** The next read of a session, whose results so far are consistent. */
  method ContinueSession(provider: ClusterProvider, node: ClusterDetails, results: seq<Option<Details>>, answered: seq<nat>,
                         ghost given: set<object>, ghost start: nat)
    returns (results': seq<Option<Details>>, answered': seq<nat>, ghost given': set<object>)
    requires !node.Complete() && provider.api != provider as object
    requires given !! provider.Repr() && provider.api !in given && given !! node.Footprint()
    requires provider !in node.Footprint() && provider.api !in node.Footprint()
    requires SessionSoFar(results, answered, node.Value(), provider.api.description, provider.decode, start)
    requires provider.Cached() == LastOf(results) && provider.api.answered == LastCount(answered, start)
    modifies provider, provider.api, given
    ensures given <= given' && fresh(given' - given) && given' !! provider.Repr()
    ensures fresh(provider.Repr() - old(provider.Repr()))
    ensures node.Footprint() == old(node.Footprint()) && node.Value() == old(node.Value())
    ensures |results'| == |results| + 1
    ensures old(provider.api.refused) <= provider.api.refused
    ensures Usable(node.Value(), provider.api.description, provider.decode) ==>
              provider.api.refused == old(provider.api.refused) && None !in results ==> None !in results'
    ensures SessionSoFar(results', answered', node.Value(), provider.api.description, provider.decode, start)
    ensures provider.Cached() == LastOf(results') && provider.api.answered == LastCount(answered', start)
  {
    var r;
    r, given' := ReadAndScribble(provider, node, given);
    ConsistentNext(results, answered, Expected(node.Value(), provider.api.description, provider.decode),
                   Usable(node.Value(), provider.api.description, provider.decode), start, r, provider.api.answered);
    results', answered' := results + [r], answered + [provider.api.answered];
  }

  /**
   Any number of such reads for the same incomplete node: all results have the same contents, and once there is
   one every later read succeeds without asking the API. An API with a usable answer is read successfully at most
   once, and if it refuses no call every read succeeds. `answered` is the API's answer count after each read.
   */
  method AnySession(provider: ClusterProvider, node: ClusterDetails, rounds: nat)
    returns (results: seq<Option<Details>>, answered: seq<nat>)
    requires provider.cache == null && !node.Complete()
    requires {provider, provider.api} !! node.Footprint() && provider.api != provider as object
    modifies provider, provider.api
    ensures |results| == |answered| == rounds
    ensures SessionSoFar(results, answered, old(node.Value()), provider.api.description, provider.decode,
                         old(provider.api.answered))
    ensures Usable(old(node.Value()), provider.api.description, provider.decode) ==>
              provider.api.refused == old(provider.api.refused) ==> None !in results
  {
    results, answered := [], [];
    ghost var given: set<object> := {};
    ghost var start := provider.api.answered;
    ghost var refused := provider.api.refused;
    for i := 0 to rounds
      invariant |results| == i
      invariant fresh(given) && fresh(provider.Repr() - {provider}) && given !! provider.Repr()
      invariant node.Footprint() == old(node.Footprint()) && node.Value() == old(node.Value())
      invariant provider.Cached() == LastOf(results) && provider.api.answered == LastCount(answered, start)
      invariant SessionSoFar(results, answered, node.Value(), provider.api.description, provider.decode, start)
      invariant refused <= provider.api.refused
      invariant Usable(node.Value(), provider.api.description, provider.decode) ==>
                  provider.api.refused == refused ==> None !in results
    {
      results, answered, given := ContinueSession(provider, node, results, answered, given, start);
    }
  }
}
