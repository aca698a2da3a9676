/** `CIDRlist`: a list of networks built from strings, answering `ip in list`. */
module CidrLists {

  import opened Results
  import opened Networks

  /** The results of a sequence of steps, gathered as Python's loop gathers
      them: every value in order, or the error of the first step that failed. */
  function Collect<T>(results: seq<Result<T>>): (r: Result<seq<T>>)
    ensures r.Ok? ==> |r.value| == |results|
  {
    if results == [] then Ok([])
    else
      match Collect(results[..|results| - 1])
      case Err(e) => Err(e)
      case Ok(vs) =>
        match results[|results| - 1]
        case Err(e) => Err(e)
        case Ok(v) => Ok(vs + [v])
  }

  /** Step `k` failed and every step before it succeeded. */
  predicate FirstFailure<T>(results: seq<Result<T>>, k: int) {
    0 <= k < |results| && results[k].Err? &&
    forall j :: 0 <= j < k ==> results[j].Ok?
  }

  /** Gathering succeeds exactly when every step succeeded, and then keeps
      every value, in order. */
  lemma {:induction false} CollectOk<T>(results: seq<Result<T>>)
    ensures Collect(results).Ok? <==> forall i :: 0 <= i < |results| ==> results[i].Ok?
    ensures Collect(results).Ok? ==> forall i :: 0 <= i < |results| ==> results[i] == Ok(Collect(results).value[i])
  {
    if results != [] {
      var init := results[..|results| - 1];
      CollectOk(init);
      assert forall i :: 0 <= i < |init| ==> init[i] == results[i];
    }
  }

  /** A failed gathering reports the error of the first failed step. */
  lemma {:induction false} CollectFirstError<T>(results: seq<Result<T>>)
    requires Collect(results).Err?
    ensures exists k :: FirstFailure(results, k) && Collect(results).error == results[k].error
  {
    var init := results[..|results| - 1];
    assert forall i :: 0 <= i < |init| ==> init[i] == results[i];
    if Collect(init).Err? {
      CollectFirstError(init);
      var k :| FirstFailure(init, k) && Collect(init).error == init[k].error;
      assert FirstFailure(results, k);
    } else {
      CollectOk(init);
      assert FirstFailure(results, |results| - 1);
    }
  }

  /** When the steps before `i` succeeded and step `i` failed, gathering
      fails with step `i`'s error. */
  lemma CollectFailureAt<T>(results: seq<Result<T>>, i: nat)
    requires i < |results| && Collect(results[..i]).Ok? && results[i].Err?
    ensures Collect(results).Err? && Collect(results).error == results[i].error
  {
    CollectOk(results[..i]);
    assert FirstFailure(results, i);
    CollectOk(results);
    CollectFirstError(results);
    var k :| FirstFailure(results, k) && Collect(results).error == results[k].error;
    assert k == i;
  }

  /** One more successful step appends its value. */
  lemma CollectStep<T>(results: seq<Result<T>>, i: nat)
    requires i < |results| && Collect(results[..i]).Ok? && results[i].Ok?
    ensures Collect(results[..i + 1]) == Ok(Collect(results[..i]).value + [results[i].value])
  {
    assert results[..i + 1][..i] == results[..i];
  }

  /** `ip_network(e, strict=False)` of each entry. */
  function Parsed(entries: seq<string>): (r: seq<Result<IpNetwork>>)
    ensures |r| == |entries| && forall i :: 0 <= i < |entries| ==> r[i] == ParseEntry(entries[i])
  {
    seq(|entries|, i requires 0 <= i < |entries| => ParseEntry(entries[i]))
  }

  /** The networks `CIDRlist(*entries)` stores, or the error it raises. */
  function ParseAll(entries: seq<string>): (r: Result<seq<IpNetwork>>)
    ensures r.Ok? ==> |r.value| == |entries| && AllCanonical(r.value)
  {
    var r := Collect(Parsed(entries));
    CollectOk(Parsed(entries));
    r
  }

  /** Construction succeeds exactly when every argument is a network, and then
      keeps exactly one network per argument, in argument order; otherwise it
      reports the error of the first argument that is not one. */
  lemma ParseAllSpec(entries: seq<string>)
    ensures ParseAll(entries).Ok? <==> forall i :: 0 <= i < |entries| ==> ParseEntry(entries[i]).Ok?
    ensures ParseAll(entries).Ok? ==> forall i :: 0 <= i < |entries| ==> ParseEntry(entries[i]) == Ok(ParseAll(entries).value[i])
    ensures ParseAll(entries).Err? ==> exists k :: FirstFailure(Parsed(entries), k) && ParseAll(entries).error == ParseEntry(entries[k]).error
  {
    CollectOk(Parsed(entries));
    if ParseAll(entries).Err? {
      CollectFirstError(Parsed(entries));
    }
  }

  /** When each entry parses to the network given for it, construction stores
      exactly those networks. */
  lemma ParseAllOfEach(entries: seq<string>, networks: seq<IpNetwork>)
    requires |entries| == |networks|
    requires forall i :: 0 <= i < |entries| ==> ParseEntry(entries[i]) == Ok(networks[i])
    ensures ParseAll(entries) == Ok(networks)
  {
    ParseAllSpec(entries);
    assert ParseAll(entries).value == networks;
  }

  class CidrList {
    /** The networks, in the order they were appended (the list `CIDRlist` extends). */
    var networks: seq<IpNetwork>

    /** Every stored network is canonical: no host bit set. */
    ghost predicate Valid()
      reads this
    {
      AllCanonical(networks)
    }

    /** An empty list. */
    constructor Empty()
      ensures Valid() && networks == []
    {
      networks := [];
    }

    /** `self.append(network)`. */
    method Append(n: IpNetwork)
      requires Valid() && IsCanonical(n)
      modifies this
      ensures Valid() && networks == old(networks) + [n]
    {
      networks := networks + [n];
    }

    /** `CIDRlist(*entries)`: parse each entry with `ip_network(entry,
        strict=False)` and append it; the first entry that is not a network
        raises, and then no list results. */
    static method FromEntries(entries: seq<string>) returns (r: Result<CidrList>)
      ensures r.Ok? <==> ParseAll(entries).Ok?
      ensures r.Ok? ==> fresh(r.value) && r.value.Valid() && r.value.networks == ParseAll(entries).value
      ensures r.Err? ==> r.error == ParseAll(entries).error
    {
      var list := new CidrList.Empty();
      ghost var results := Parsed(entries);
      var i := 0;
      while i < |entries|
        invariant 0 <= i <= |entries|
        invariant fresh(list) && list.Valid()
        invariant Collect(results[..i]) == Ok(list.networks)
      {
        var parsed := ParseEntry(entries[i]);
        if parsed.Err? {
          CollectFailureAt(results, i);
          return Err(parsed.error);
        }
        CollectStep(results, i);
        list.Append(parsed.value);
        i := i + 1;
      }
      assert results[..i] == results;
      return Ok(list);
    }

    /** `ip in self`: parse the query as an IPv4 network (after dropping a
        leading `::ffff:`) and return true at the first stored network it
        overlaps; the answer is the existential `Membership`. */
    method Contains(ip: string) returns (r: Result<bool>)
      requires Valid()
      ensures r == Membership(networks, ip)
    {
      var query := ParseQuery(ip);
      if query.Err? {
        return Err(query.error);
      }
      var addr := query.value;
      assert AllCanonical(networks);
      var i := 0;
      while i < |networks|
        invariant 0 <= i <= |networks|
        invariant forall j :: 0 <= j < i ==> !Overlaps(addr, networks[j])
      {
        if Overlaps(addr, networks[i]) {
          return Ok(true);
        }
        i := i + 1;
      }
      assert !AnyOverlaps(addr, networks);
      return Ok(false);
    }
  }
}
