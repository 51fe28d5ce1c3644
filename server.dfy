/** The server's one piece of state, the `database` array that holds nodes and
    links together in arrival order, and the effect of its three handlers on
    it: POST /addnode and POST /addlink push one record each, GET /data hands
    the array back. Nothing is validated, deduplicated or removed. */
module Server {
  import opened Graph

  /** One element of the store: a node or a link. */
  datatype Entry = NodeEntry(node: Node) | LinkEntry(link: Link)

  /** The entry is exactly what one of the two constructors produces. */
  predicate Built(e: Entry)
  {
    match e
    case NodeEntry(n) => n == NewNode(n.ip)
    case LinkEntry(l) => l == NewLink(l.source, l.target)
  }

  /** A node in the store is keyed by its IP and its label carries no '.';
      a link's id starts with its source followed by '-'. */
  lemma BuiltEntryShape(e: Entry)
    requires Built(e)
    ensures e.NodeEntry? ==> e.node.id == e.node.ip && '.' !in e.node.labelText
    ensures e.LinkEntry? ==> e.link.id == e.link.source + "-" + e.link.target
  {
    if e.NodeEntry? {
      LabelHasNoDot(e.node.ip);
    }
  }

  class Database {
    /** The stored records, oldest first. */
    var entries: seq<Entry>

    ghost predicate Valid()
      reads this
    {
      forall k :: 0 <= k < |entries| ==> Built(entries[k])
    }

    /** The store starts empty. */
    constructor ()
      ensures Valid() && entries == []
    {
      entries := [];
    }

    /** POST /addnode: builds a node from the IP, appends it and returns it. */
    method AddNode(ip: string) returns (node: Node)
      requires Valid()
      modifies this
      ensures Valid()
      ensures node == NewNode(ip)
      ensures entries == old(entries) + [NodeEntry(node)]
    {
      node := NewNode(ip);
      entries := entries + [NodeEntry(node)];
    }

    /** POST /addlink: builds a link from the two endpoints, appends it and
        returns it. Neither endpoint has to name a stored node. */
    method AddLink(source: string, target: string) returns (link: Link)
      requires Valid()
      modifies this
      ensures Valid()
      ensures link == NewLink(source, target)
      ensures entries == old(entries) + [LinkEntry(link)]
    {
      link := NewLink(source, target);
      entries := entries + [LinkEntry(link)];
    }

    /** GET /data: the whole store, in arrival order, left as it is. */
    method Data() returns (all: seq<Entry>)
      ensures all == entries
    {
      all := entries;
    }
  }

  /** Registering one IP twice stores two equal nodes with the same id:
      there is no uniqueness check. */
  method RegisterTwice(ip: string) returns (all: seq<Entry>)
    ensures |all| == 2 && all[0] == all[1]
    ensures all[0].NodeEntry? && all[0].node.id == ip && all[1].node.id == ip
  {
    var db := new Database();
    var first := db.AddNode(ip);
    var second := db.AddNode(ip);
    all := db.Data();
  }

  /** A node and a link from it to a never-registered target are both
      stored, in request order. */
  method NodeThenLink(ip: string, target: string) returns (all: seq<Entry>)
    ensures |all| == 2
    ensures all[0].NodeEntry? && all[0].node.ip == ip && all[0].node.id == ip
    ensures all[1] == LinkEntry(Link(ip + "-" + target, ip, target))
    ensures forall k :: 0 <= k < |all| ==> Built(all[k])
  {
    var db := new Database();
    var node := db.AddNode(ip);
    var link := db.AddLink(ip, target);
    all := db.Data();
  }
}
