/** The two records the server stores: a node built from an IP string and a
    link built from a source and a target string. In the server's JSON each
    record's fields sit under a `data` key; the records here hold those fields
    directly. */
module Graph {
  import opened JsText

  datatype Node = Node(ip: string, id: string, labelText: string)

  datatype Link = Link(id: string, source: string, target: string)

  /** The display label of a node: its IP split at '.' and joined with '_'. */
  function Label(ip: string): string
  {
    Join(Split(ip, '.'), "_")
  }

  /** `new Node(ip)`: the IP kept as both `ip` and `id`, the label the same
      text with every '.' turned into '_'. */
  function NewNode(ip: string): (n: Node)
    ensures n.ip == ip && n.id == ip
    ensures |n.labelText| == |ip|
    ensures forall i :: 0 <= i < |ip| ==> n.labelText[i] == if ip[i] == '.' then '_' else ip[i]
  {
    var n := Node(ip, ip, Label(ip));
    LabelIsDotReplacement(ip);
    forall i | 0 <= i < |ip|
      ensures n.labelText[i] == if ip[i] == '.' then '_' else ip[i]
    {
      ReplaceAt(ip, '.', '_', i);
    }
    n
  }

  /** The label is the per-character replacement of '.' by '_'. */
  lemma LabelIsDotReplacement(ip: string)
    ensures Label(ip) == Replace(ip, '.', '_')
  {
    SplitJoinIsReplace(ip, '.', '_');
  }

  lemma LabelHasNoDot(ip: string)
    ensures '.' !in NewNode(ip).labelText
  {
    var text := NewNode(ip).labelText;
    forall i | 0 <= i < |text|
      ensures text[i] != '.'
    {
    }
  }

  /** An IP without any '.' is its own label. */
  lemma LabelWithoutDots(ip: string)
    requires '.' !in ip
    ensures NewNode(ip).labelText == ip
  {
    var text := NewNode(ip).labelText;
    assert forall i :: 0 <= i < |ip| ==> text[i] == ip[i];
  }

  /** Relabelling a label changes nothing. */
  lemma LabelIdempotent(ip: string)
    ensures NewNode(NewNode(ip).labelText).labelText == NewNode(ip).labelText
  {
    LabelHasNoDot(ip);
    LabelWithoutDots(NewNode(ip).labelText);
  }

  /** Two IPs that differ only in '.' against '_' share a label. */
  lemma LabelsCollide(a: string, b: string)
    requires |a| == |b|
    requires forall i :: 0 <= i < |a| ==> a[i] == b[i] || (a[i] in "._" && b[i] in "._")
    ensures NewNode(a).labelText == NewNode(b).labelText
  {
    var la, lb := NewNode(a).labelText, NewNode(b).labelText;
    forall i | 0 <= i < |a|
      ensures la[i] == lb[i]
    {
      assert a[i] in "._" ==> a[i] == '.' || a[i] == '_';
      assert b[i] in "._" ==> b[i] == '.' || b[i] == '_';
    }
  }

  /** `new Link(source, target)`: the endpoints kept as given, the id the
      template string `${source}-${target}`. */
  function NewLink(source: string, target: string): (l: Link)
    ensures l.source == source && l.target == target
    ensures |l.id| == |source| + 1 + |target|
    ensures l.id[..|source|] == source && l.id[|source|] == '-' && l.id[|source| + 1..] == target
  {
    Link(source + "-" + target, source, target)
  }

  /** When the source holds no '-', the link id determines both endpoints:
      the source is the text before the first '-', the target the rest. */
  lemma LinkIdInjective(s1: string, t1: string, s2: string, t2: string)
    requires '-' !in s1 && '-' !in s2
    requires NewLink(s1, t1).id == NewLink(s2, t2).id
    ensures s1 == s2 && t1 == t2
  {
    var id := NewLink(s1, t1).id;
    assert id[|s1|] == '-' && id[|s2|] == '-';
    assert forall j :: 0 <= j < |s1| ==> id[j] == s1[j];
    assert forall j :: 0 <= j < |s2| ==> id[j] == s2[j];
    assert |s1| == |s2|;
  }

  /** With a '-' inside an endpoint, two different links share an id. */
  lemma LinkIdsCollide(a: string, b: string, c: string)
    ensures NewLink(a + "-" + b, c).id == NewLink(a, b + "-" + c).id
    ensures a + "-" + b != a
  {
    assert |a + "-" + b| > |a|;
  }
}
