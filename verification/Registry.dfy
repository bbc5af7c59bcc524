/** The refresh of the queue of comet servers in src/octopus/proxy/zoo.go.

    What the registry holds for each child node is an input: None where reading it fails. */
module Registry {

  import opened Bytes
  import opened Queues

  /** The pieces of s between its commas. */
  function Split(s: string): (pieces: seq<string>)
    ensures |pieces| >= 1
  {
    if |s| == 0 then [""]
    else
      var rest := Split(s[1..]);
      if s[0] == ',' then [""] + rest else [[s[0]] + rest[0]] + rest[1..]
  }

  function Join(pieces: seq<string>): string
    requires |pieces| >= 1
  {
    if |pieces| == 1 then pieces[0] else pieces[0] + "," + Join(pieces[1..])
  }

  /** Split is the one way to write s as pieces without commas joined by commas. */
  lemma {:induction false} SplitOfJoin(pieces: seq<string>)
    requires |pieces| >= 1 && forall i :: 0 <= i < |pieces| ==> ',' !in pieces[i]
    ensures Split(Join(pieces)) == pieces
    decreases |pieces|, |pieces[0]|
  {
    var s := Join(pieces);
    if |pieces[0]| > 0 {
      var shorter := [pieces[0][1..]] + pieces[1..];
      SplitOfJoin(shorter);
      assert s[1..] == Join(shorter);
      assert [s[0]] + shorter[0] == pieces[0];
    } else if |pieces| > 1 {
      SplitOfJoin(pieces[1..]);
      assert s[1..] == Join(pieces[1..]);
    }
  }

  // ----- what a node asks for -----

  datatype Offer = Nothing | Unknown | Url(url: string)

  /** The server a node describes: seven fields, the first its address, the last its protocol. */
  function OfferOf(data: Option<string>): (o: Offer)
    ensures o.Url? ==> |o.url| >= 6
  {
    if data.None? then Nothing
    else
      var items := Split(data.value);
      if |items| != 7 then Nothing
      else if items[6] == "1" then Url("udp://" + items[0])
      else if items[6] == "2" then Url("tcp://" + items[0])
      else Unknown
  }

  /** Seven fields joined by commas are an offer, for udp when the last is 1 and for tcp when it is 2, of
      the address in the first; any other number of fields is none. */
  lemma OfferOfFields(fields: seq<string>)
    requires |fields| >= 1 && forall i :: 0 <= i < |fields| ==> ',' !in fields[i]
    ensures OfferOf(Some(Join(fields)))
         == if |fields| != 7 then Nothing
            else if fields[6] == "1" then Url("udp://" + fields[0])
            else if fields[6] == "2" then Url("tcp://" + fields[0])
            else Unknown
    ensures OfferOf(None) == Nothing
  {
    hide Split, Join;
    SplitOfJoin(fields);
  }

  ghost predicate Advertised(nodes: seq<Option<string>>, url: string) {
    exists i :: 0 <= i < |nodes| && OfferOf(nodes[i]) == Url(url)
  }

  /** The urls of the nodes, in their order. */
  function Urls(nodes: seq<Option<string>>): (urls: seq<Option<string>>)
    ensures forall u :: Some(u) in urls <==> Advertised(nodes, u)
    ensures None !in urls && Some("") !in urls
  {
    if |nodes| == 0 then []
    else
      var last := |nodes| - 1;
      var o := OfferOf(nodes[last]);
      Urls(nodes[..last]) + if o.Url? then [Some(o.url)] else []
  }

  function Insert(s: seq<Option<string>>, v: Option<string>): seq<Option<string>> {
    if v in s then s else s + [v]
  }

  /** The queue after one node: a node of unknown protocol leaves an empty string there. */
  function Offered(s: seq<Option<string>>, data: Option<string>): seq<Option<string>> {
    match OfferOf(data)
    case Nothing => s
    case Unknown => Insert(s, Some(""))
    case Url(url) => Insert(s, Some(url))
  }

  function Grown(s: seq<Option<string>>, nodes: seq<Option<string>>): (r: seq<Option<string>>)
    ensures s <= r && |r| <= |s| + |nodes|
  {
    if |nodes| == 0 then s else Offered(Grown(s, nodes[..|nodes| - 1]), nodes[|nodes| - 1])
  }

  ghost function Refreshed(s: seq<Option<string>>, nodes: seq<Option<string>>): seq<Option<string>> {
    WithoutEach(Grown(s, nodes), Stale(Grown(s, nodes), Urls(nodes)))
  }

  /** What one node adds to the list of urls and to the queue; waiting says that the queue is full
      and Put blocks. */
  method Enlist(gQueue: Queue<string>, data: Option<string>) returns (url: Option<string>, waiting: bool)
    requires gQueue.Valid()
    modifies gQueue, gQueue.Owned()
    ensures gQueue.Valid()
    ensures forall n :: n in gQueue.Owned() ==> n in old(gQueue.Owned()) || fresh(n)
    ensures url == match OfferOf(data) case Url(u) => Some(u) case _ => None
    ensures !waiting ==> gQueue.contents == Offered(old(gQueue.contents), data)
    ensures !waiting && OfferOf(data) == Unknown ==>
              gQueue.contents == old(gQueue.contents)
                                 + if Some("") in old(gQueue.contents) then [] else [Some("")]
    ensures waiting ==> |gQueue.contents| == gQueue.capacity && old(gQueue.contents) == gQueue.contents
  {
    hide Split, gQueue.Valid;
    if data.None? { return None, false; }
    var items := Split(data.value);
    if |items| != 7 { return None, false; }
    url := None;
    var put := "";
    if items[6] == "1" {
      put := "udp://" + items[0];
      url := Some(put);
    } else if items[6] == "2" {
      put := "tcp://" + items[0];
      url := Some(put);
    }
    waiting := PutIfAbsent(gQueue, put);
  }

  method PutIfAbsent(gQueue: Queue<string>, url: string) returns (waiting: bool)
    requires gQueue.Valid()
    modifies gQueue, gQueue.Owned()
    ensures gQueue.Valid()
    ensures forall n :: n in gQueue.Owned() ==> n in old(gQueue.Owned()) || fresh(n)
    ensures !waiting ==> gQueue.contents == Insert(old(gQueue.contents), Some(url))
    ensures waiting ==> |gQueue.contents| == gQueue.capacity && old(gQueue.contents) == gQueue.contents
  {
    var present := gQueue.Contains(Some(url));
    waiting := false;
    if !present {
      var ok := gQueue.Put(Some(url));
      waiting := !ok;
    }
  }

  method UpdatingCometQue(gQueue: Queue<string>, zkNodes: seq<Option<string>>) returns (waiting: bool)
    requires gQueue.Valid()
    modifies gQueue, gQueue.Owned()
    ensures gQueue.Valid()
    ensures !waiting ==> gQueue.contents == Refreshed(old(gQueue.contents), zkNodes)
    ensures waiting ==> |gQueue.contents| == gQueue.capacity && old(gQueue.contents) <= gQueue.contents
  {
    hide OfferOf, WithoutEach, gQueue.Valid, Offered;
    var preRetrain: seq<Option<string>> := [];
    for i := 0 to |zkNodes|
      invariant gQueue.Valid()
      invariant forall n :: n in gQueue.Owned() ==> n in old(gQueue.Owned()) || fresh(n)
      invariant preRetrain == Urls(zkNodes[..i])
      invariant gQueue.contents == Grown(old(gQueue.contents), zkNodes[..i])
    {
      assert zkNodes[..i + 1][..i] == zkNodes[..i];
      var url, full := Enlist(gQueue, zkNodes[i]);
      if full { return true; }
      if url.Some? { preRetrain := preRetrain + [url]; }
    }
    assert zkNodes[..|zkNodes|] == zkNodes;
    gQueue.Retrain(preRetrain);
    return false;
  }

  // ----- what a refresh achieves -----

  ghost predicate Clean(s: seq<Option<string>>) {
    Distinct(s) && None !in s
  }

  lemma {:induction false} GrownContents(s: seq<Option<string>>, nodes: seq<Option<string>>)
    requires Clean(s)
    ensures Clean(Grown(s, nodes))
    ensures forall x :: x in Urls(nodes) ==> x in Grown(s, nodes)
  {
    if |nodes| > 0 { GrownContents(s, nodes[..|nodes| - 1]); }
  }

  lemma {:induction false} OutsideOfPrefix<T(!new)>(s: seq<T>, t: seq<T>, vs: set<T>)
    ensures Outside(s + t, vs) == Outside(s, vs) + Outside(t, vs)
  {
    if |s| == 0 {
      assert s + t == t;
    } else {
      assert (s + t)[1..] == s[1..] + t;
      OutsideOfPrefix(s[1..], t, vs);
    }
  }

  /** Once refreshed, a queue without duplicates holds each advertised url once and nothing else, the
      urls it held before come first in their old order, and its size is the number of urls. */
  lemma RefreshTheorem(s: seq<Option<string>>, nodes: seq<Option<string>>)
    requires Clean(s)
    ensures Clean(Refreshed(s, nodes))
    ensures forall u :: Some(u) in Refreshed(s, nodes)
                   <==> Advertised(nodes, u)
    ensures Outside(s, Stale(s, Urls(nodes))) <= Refreshed(s, nodes)
    ensures |Refreshed(s, nodes)| == |set x | x in Urls(nodes)|
  {
    hide Advertised, Grown, Urls;
    var grown, stale := Grown(s, nodes), Stale(Grown(s, nodes), Urls(nodes));
    GrownContents(s, nodes);
    WithoutEachOfDistinct(grown, stale);
    var added := grown[|s|..];
    assert grown == s + added;
    OutsideOfPrefix(s, added, stale);
    OutsideAgree(s, stale, Stale(s, Urls(nodes)));
    SizeOfDistinct(Refreshed(s, nodes), set x | x in Urls(nodes));
  }

  lemma {:induction false} OutsideAgree<T(!new)>(s: seq<T>, a: set<T>, b: set<T>)
    requires forall x :: x in s ==> (x in a <==> x in b)
    ensures Outside(s, a) == Outside(s, b)
  {
    if |s| > 0 { OutsideAgree(s[1..], a, b); }
  }

  lemma {:induction false} SizeOfDistinct<T(!new)>(s: seq<T>, values: set<T>)
    requires Distinct(s) && forall x :: x in values <==> x in s
    ensures |s| == |values|
  {
    if |s| == 0 {
      assert values == {};
    } else {
      SizeOfDistinct(s[1..], values - {s[0]});
    }
  }

  // ----- a history of refreshes -----

  ghost function AfterRefreshes(s: seq<Option<string>>, history: seq<seq<Option<string>>>): seq<Option<string>> {
    if |history| == 0 then s
    else Refreshed(AfterRefreshes(s, history[..|history| - 1]), history[|history| - 1])
  }

  /** However the registry changed over time, the queue agrees with its last state. */
  lemma {:induction false} LastRefreshDecides(history: seq<seq<Option<string>>>)
    ensures Clean(AfterRefreshes([], history))
    ensures |history| > 0 ==>
              forall u :: Some(u) in AfterRefreshes([], history) <==> Advertised(history[|history| - 1], u)
  {
    hide Refreshed, Advertised;
    if |history| > 0 {
      var before := history[..|history| - 1];
      LastRefreshDecides(before);
      RefreshTheorem(AfterRefreshes([], before), history[|history| - 1]);
    }
  }
}
