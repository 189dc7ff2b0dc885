/**
 * Placement targets of the ring and their two renderings: the text that is
 * hashed (KeyValue) and the identity used for equality (String).
 */
module Nodes {
  import opened Outcomes
  import opened Strings

  /** A server address and an optional instance name; "" stands for no instance (NewNode). */
  datatype Node = Node(server: string, instance: string) {

    /** The repr of the Python tuple (server, instance) that Graphite's own ring hashes. */
    function KeyValue(): (r: string)
      ensures |r| >= |server| + 9
      ensures r[..2 + |server|] == "('" + server
      ensures r[|r| - 1] == ')'
      ensures instance == "" <==> r[2 + |server|..] == "', None)"
    {
      var head := "('" + server;
      if instance == "" then
        assert (head + "', None)")[|head|..] == "', None)";
        head + "', None)"
      else
        var tail := "', '" + instance + "')";
        assert tail[3] != "', None)"[3];
        assert (head + tail)[|head|..] == tail;
        head + tail
    }

    /** The identity of a node: `server` or `server:instance`. */
    function String(): (r: string)
    {
      if instance == "" then server
      else
        assert (server + ":" + instance)[|server| + 1..] == instance;
        server + ":" + instance
    }
  }

  /** Node.String as a function value, for filters over node lists. */
  function NodeIdentity(n: Node): string {
    n.String()
  }

  /** Splits an identity at its first ':' into server and instance. */
  function ParseIdentity(s: string): Node {
    var i := IndexOf(s, ':');
    if i == |s| then Node(s, "") else Node(s[..i], s[i + 1..])
  }

  /** Reads back the text KeyValue renders, or None when s does not have its shape. */
  function ParseKeyValue(s: string): Option<Node> {
    if |s| < 2 || s[..2] != "('" then None
    else
      var rest := s[2..];
      var q := IndexOf(rest, '\'');
      var tail := rest[q..];
      if tail == "', None)" then Some(Node(rest[..q], ""))
      else if |tail| >= 6 && tail[..4] == "', '" && tail[|tail| - 2..] == "')" then
        Some(Node(rest[..q], tail[4..|tail| - 2]))
      else None
  }

  /**
   * The identity leads with the server name; it is the server name alone
   * exactly when there is no instance, and otherwise goes on with ':' and
   * the instance name.
   */
  lemma IdentityShape(n: Node)
    ensures var s := n.String();
      && s[..|n.server|] == n.server
      && (|s| == |n.server| <==> n.instance == "")
      && (n.instance != "" ==> s[|n.server|] == ':' && s[|n.server| + 1..] == n.instance)
  {
  }

  /** The identity can be read back whenever the server name has no ':'. */
  lemma IdentityRoundTrip(n: Node)
    requires ':' !in n.server
    ensures ParseIdentity(n.String()) == n
  {
    var s := n.String();
    var i := IndexOf(s, ':');
    if n.instance != "" {
      assert s[|n.server|] == ':';
      assert i == |n.server|;
      assert s[..i] == n.server;
      assert s[i + 1..] == n.instance;
    } else {
      assert i == |s|;
    }
  }

  /** The hashed rendering can be read back whenever the server name has no quote. */
  lemma KeyValueRoundTrip(n: Node)
    requires '\'' !in n.server
    ensures ParseKeyValue(n.KeyValue()) == Some(n)
  {
    var s := n.KeyValue();
    assert s[..2] == "('";
    var rest := s[2..];
    var q := IndexOf(rest, '\'');
    assert rest[|n.server|] == '\'';
    assert q == |n.server|;
    assert rest[..q] == n.server;
    var tail := rest[q..];
    if n.instance == "" {
      assert tail == "', None)";
    } else {
      assert tail == "', '" + n.instance + "')";
      assert tail[3] != "', None)"[3];
      assert tail[4..|tail| - 2] == n.instance;
    }
  }

  /** Over servers without ':', two nodes share an identity exactly when they are equal. */
  lemma IdentityInjective(a: Node, b: Node)
    requires ':' !in a.server && ':' !in b.server
    ensures a.String() == b.String() <==> a == b
  {
    IdentityRoundTrip(a);
    IdentityRoundTrip(b);
  }

  /** Over servers without quotes, two nodes hash the same text exactly when they are equal. */
  lemma KeyValueInjective(a: Node, b: Node)
    requires '\'' !in a.server && '\'' !in b.server
    ensures a.KeyValue() == b.KeyValue() <==> a == b
  {
    KeyValueRoundTrip(a);
    KeyValueRoundTrip(b);
  }

  /**
   * Identity and placement agree: for servers with neither ':' nor a quote,
   * RemoveNode's identity test matches exactly the nodes that hash alike.
   */
  lemma IdentityMatchesKeyValue(a: Node, b: Node)
    requires ':' !in a.server && ':' !in b.server
    requires '\'' !in a.server && '\'' !in b.server
    ensures a.String() == b.String() <==> a.KeyValue() == b.KeyValue()
  {
    IdentityInjective(a, b);
    KeyValueInjective(a, b);
  }

  /** Without that restriction the identity is coarser: two nodes hashed apart share one identity. */
  lemma IdentityCollision()
    ensures Node("a:b", "").String() == Node("a", "b").String()
    ensures Node("a:b", "").KeyValue() != Node("a", "b").KeyValue()
  {
    assert |Node("a:b", "").KeyValue()| == 13 && |Node("a", "b").KeyValue()| == 10;
  }
}
