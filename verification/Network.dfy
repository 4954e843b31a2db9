/** The network graph as the route search sees it (network/routing.py, NetworkGraph), and its mutable form. */
module Network {
  import opened Channel

  /** Known nodes, and for each pair of adjacent nodes the channel they share. */
  datatype Net = Net(nodes: set<string>, chans: map<(string, string), Chan>)

  /** `get_capacity`: the balance available from `u` towards `v`. */
  function Capacity(net: Net, u: string, v: string): (c: int) {
    if (u, v) !in net.chans then 0
    else if net.chans[(u, v)].sender == u then net.chans[(u, v)].senderBalance
    else net.chans[(u, v)].receiverBalance
  }

  /** The edges the search follows. */
  predicate Eligible(net: Net, amount: int, u: string, v: string) {
    (u, v) in net.chans && Capacity(net, u, v) >= amount
  }

  /** In terms of the channel: its sender's balance one way, the receiver's the other, nothing without a channel; and an edge
      is followed when that covers the amount. */
  lemma BalanceTowards(net: Net, amount: int, u: string, v: string)
    ensures (u, v) !in net.chans ==> Capacity(net, u, v) == 0 && !Eligible(net, amount, u, v)
    ensures (u, v) in net.chans ==>
      var c := net.chans[(u, v)];
      var available := if u == c.sender then c.senderBalance else c.receiverBalance;
      Capacity(net, u, v) == available && (Eligible(net, amount, u, v) <==> available >= amount)
  {
  }

  predicate IsWalk(net: Net, amount: int, walk: seq<string>) {
    |walk| > 0 && forall i :: 0 <= i < |walk| - 1 ==> Eligible(net, amount, walk[i], walk[i + 1])
  }

  predicate Connects(walk: seq<string>, source: string, target: string) {
    |walk| > 0 && walk[0] == source && walk[|walk| - 1] == target
  }

  ghost predicate Reachable(net: Net, amount: int, source: string, target: string) {
    exists walk :: IsWalk(net, amount, walk) && Connects(walk, source, target)
  }

  /** `add_channel`, on the abstract graph. */
  function WithChannel(net: Net, c: Chan): (r: Net) {
    Net(net.nodes + {c.sender, c.receiver}, net.chans[(c.sender, c.receiver) := c][(c.receiver, c.sender) := c])
  }

  type Adjacency = map<string, map<string, PaymentChannel>>

  function Edges(adj: Adjacency): (e: map<(string, string), PaymentChannel>) {
    map u, v | u in adj && v in adj[u] :: (u, v) := adj[u][v]
  }

  lemma EdgeMember(adj: Adjacency, u: string, v: string)
    ensures (u, v) in Edges(adj) <==> u in adj && v in adj[u]
    ensures (u, v) in Edges(adj) ==> Edges(adj)[(u, v)] == adj[u][v]
  {
  }

  lemma EdgesLink(adj: Adjacency, u: string, v: string, c: PaymentChannel)
    requires u in adj
    ensures Edges(adj[u := adj[u][v := c]]) == Edges(adj)[(u, v) := c]
  {
    hide Edges;
    var adj' := adj[u := adj[u][v := c]];
    forall e: (string, string)
      ensures e in Edges(adj') <==> e in Edges(adj) || e == (u, v)
      ensures e in Edges(adj') ==> Edges(adj')[e] == if e == (u, v) then c else Edges(adj)[e]
    {
      EdgeMember(adj, e.0, e.1);
      EdgeMember(adj', e.0, e.1);
    }
  }

  lemma EdgesNode(adj: Adjacency, u: string)
    requires u !in adj
    ensures Edges(adj[u := map[]]) == Edges(adj)
  {
    hide Edges;
    var adj' := adj[u := map[]];
    forall e: (string, string)
      ensures e in Edges(adj') <==> e in Edges(adj)
      ensures e in Edges(adj') ==> Edges(adj')[e] == Edges(adj)[e]
    {
      EdgeMember(adj, e.0, e.1);
      EdgeMember(adj', e.0, e.1);
    }
  }

  function AddEdges(adj: Adjacency, a: string, b: string, c: PaymentChannel): (r: Adjacency) {
    var adj1 := if a in adj then adj else adj[a := map[]];
    var adj2 := if b in adj1 then adj1 else adj1[b := map[]];
    var adj3 := adj2[a := adj2[a][b := c]];
    adj3[b := adj3[b][a := c]]
  }

  lemma EdgesAdded(adj: Adjacency, a: string, b: string, c: PaymentChannel)
    ensures Edges(AddEdges(adj, a, b, c)) == Edges(adj)[(a, b) := c][(b, a) := c]
    ensures AddEdges(adj, a, b, c).Keys == adj.Keys + {a, b}
  {
    hide Edges;
    var adj1 := if a in adj then adj else adj[a := map[]];
    if a !in adj {
      EdgesNode(adj, a);
    }
    var adj2 := if b in adj1 then adj1 else adj1[b := map[]];
    if b !in adj1 {
      EdgesNode(adj1, b);
    }
    EdgesLink(adj2, a, b, c);
    EdgesLink(adj2[a := adj2[a][b := c]], b, a, c);
  }

  ghost function ViewEdges(edges: map<(string, string), PaymentChannel>): (chans: map<(string, string), Chan>)
    reads edges.Values
  {
    map e | e in edges :: InValues(edges, e); edges[e].View()
  }

  lemma InValues(edges: map<(string, string), PaymentChannel>, e: (string, string))
    requires e in edges
    ensures edges[e] in edges.Values
  {
  }

  lemma ViewEdgesUpdate(edges: map<(string, string), PaymentChannel>, e: (string, string), c: PaymentChannel)
    ensures ViewEdges(edges[e := c]) == ViewEdges(edges)[e := c.View()]
  {
  }

  /** What registering a channel does to the abstract graph. */
  lemma AddedView(adj: Adjacency, c: PaymentChannel)
    ensures var after := AddEdges(adj, c.sender, c.receiver, c);
      Net(after.Keys, ViewEdges(Edges(after))) == WithChannel(Net(adj.Keys, ViewEdges(Edges(adj))), c.View())
  {
    hide Edges, ViewEdges, AddEdges;
    EdgesAdded(adj, c.sender, c.receiver, c);
    ViewEdgesUpdate(Edges(adj), (c.sender, c.receiver), c);
    ViewEdgesUpdate(Edges(adj)[(c.sender, c.receiver) := c], (c.receiver, c.sender), c);
  }

  class NetworkGraph {
    var adj: Adjacency

    ghost function View(): (net: Net)
      reads this, Edges(adj).Values
    {
      Net(adj.Keys, ViewEdges(Edges(adj)))
    }

    lemma ViewKeys()
      ensures View().chans.Keys == Edges(adj).Keys
    {
      hide Edges;
    }

    constructor ()
      ensures View() == Net({}, map[])
    {
      adj := map[];
    }

    method AddChannel(channel: PaymentChannel)
      modifies this
      ensures adj == AddEdges(old(adj), channel.sender, channel.receiver, channel)
      ensures View() == WithChannel(old(View()), channel.View())
    {
      hide Edges, ViewEdges;
      AddedView(adj, channel);
      var links := adj;
      if channel.sender !in links {
        links := links[channel.sender := map[]];
      }
      if channel.receiver !in links {
        links := links[channel.receiver := map[]];
      }
      links := links[channel.sender := links[channel.sender][channel.receiver := channel]];
      links := links[channel.receiver := links[channel.receiver][channel.sender := channel]];
      adj := links;
    }

    function GetCapacity(u: string, v: string): (c: int)
      reads this, Edges(adj).Values
      ensures c == Capacity(View(), u, v)
    {
      if u !in adj || v !in adj[u] then 0
      else
        EdgeMember(adj, u, v);
        InValues(Edges(adj), (u, v));
        var chan := adj[u][v];
        if chan.sender == u then chan.senderBalance else chan.receiverBalance
    }
  }
}
