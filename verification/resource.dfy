/** Resource attribution: the `ResourceID` key `"<kind>/<namespace>/<name>"`
    under which a producer tags the metadata it gives the IP cache, and the
    extraction of its namespace component. */
module Resource {
  import opened Strings

  const Delimiter: char := '/'

  /** The categories of producer. In the program these are eight package-level
      string constants; here they are a closed set. */
  datatype ResourceKind =
    | CCNP | CIDRGroup | CNP | Daemon | Endpoint | File | Netpol | Node
  {
    /** The fixed short identifier the kind contributes to a ResourceID. */
    function ToString(): (s: string)
      ensures |s| > 0 && Delimiter !in s
    {
      match this
      case CCNP => "ccnp"
      case CIDRGroup => "cidrgroup"
      case CNP => "cnp"
      case Daemon => "daemon"
      case Endpoint => "ep"
      case File => "file"
      case Netpol => "netpol"
      case Node => "node"
    }
  }

  /** Distinct kinds have distinct identifiers, so the kind can be read back
      from a ResourceID. */
  lemma KindToStringInjective(k1: ResourceKind, k2: ResourceKind)
    requires k1.ToString() == k2.ToString()
    ensures k1 == k2
  {
  }

  /** A ResourceID is a plain string; two are equal iff their strings are. */
  type ResourceID = string

  /** Builds the key: kind, namespace and name joined by exactly two
      delimiters. Namespace and name may be empty. */
  function NewResourceID(kind: ResourceKind, namespace: string, name: string): (id: ResourceID)
    ensures |id| == |kind.ToString()| + |namespace| + |name| + 2
    ensures IndexByte(id, Delimiter) == |kind.ToString()|
    ensures id[..|kind.ToString()|] == kind.ToString()
    ensures id[|kind.ToString()| + 1..|kind.ToString()| + 1 + |namespace|] == namespace
    ensures id[|kind.ToString()| + 1 + |namespace|] == Delimiter
    ensures id[|id| - |name|..] == name
  {
    var k := kind.ToString();
    var id := k + [Delimiter] + namespace + [Delimiter] + name;
    IndexAfterPrefix(k, Delimiter, namespace + [Delimiter] + name);
    assert k + [Delimiter] + (namespace + [Delimiter] + name) == id;
    id
  }

  /** The namespace component: the second of at most three `/`-separated parts,
      or "" when the string has no `/` at all. */
  function Namespace(id: ResourceID): (ns: string)
    ensures Delimiter !in ns
    ensures Delimiter !in id ==> ns == ""
  {
    var parts := SplitN(id, Delimiter, 3);
    if |parts| < 2 then "" else parts[1]
  }

  /** With the first delimiter of `id` at `i`, the namespace is what follows it
      up to the next delimiter or the end of the string. Together with
      `Namespace`'s own contract this pins the result down completely. */
  lemma {:induction false} NamespaceIsSecondField(id: ResourceID, i: nat)
    requires i < |id| && id[i] == Delimiter && Delimiter !in id[..i]
    ensures var ns := Namespace(id);
      && i + 1 + |ns| <= |id|
      && id[i + 1..i + 1 + |ns|] == ns
      && (i + 1 + |ns| == |id| || id[i + 1 + |ns|] == Delimiter)
  {
    var rest := id[i + 1..];
    assert id == id[..i] + [Delimiter] + rest;
    SecondPartIsPrefix(id[..i], rest, Delimiter);
    var ns := Namespace(id);
    assert id[i + 1..i + 1 + |ns|] == rest[..|ns|];
  }

  /** Splitting a constructed ID gives its three components back, provided the
      namespace holds no delimiter. The name may hold any number of them: the
      split stops after two cuts. */
  lemma {:induction false} SplitNewResourceID(kind: ResourceKind, namespace: string, name: string)
    requires Delimiter !in namespace
    ensures SplitN(NewResourceID(kind, namespace, name), Delimiter, 3) == [kind.ToString(), namespace, name]
  {
    SplitNThree(kind.ToString(), namespace, name, Delimiter);
  }

  /** The namespace round-trips through a ResourceID exactly when it holds no
      delimiter. */
  lemma NamespaceRoundTrip(kind: ResourceKind, namespace: string, name: string)
    ensures Namespace(NewResourceID(kind, namespace, name)) == namespace <==> Delimiter !in namespace
  {
    if Delimiter !in namespace {
      SplitNewResourceID(kind, namespace, name);
    }
  }

  /** A namespace holding a delimiter comes back cut at its first delimiter. */
  lemma {:induction false} NamespaceTruncated(kind: ResourceKind, namespace: string, name: string)
    requires Delimiter in namespace
    ensures Namespace(NewResourceID(kind, namespace, name)) == namespace[..IndexByte(namespace, Delimiter)]
  {
    SplitNThreeMiddle(kind.ToString(), namespace, name, Delimiter);
  }

  /** With delimiter-free namespaces, distinct (kind, namespace, name) triples
      give distinct ResourceIDs, so the IP cache never merges two producers. */
  lemma NewResourceIDInjective(k1: ResourceKind, ns1: string, n1: string,
                               k2: ResourceKind, ns2: string, n2: string)
    requires Delimiter !in ns1 && Delimiter !in ns2
    requires NewResourceID(k1, ns1, n1) == NewResourceID(k2, ns2, n2)
    ensures k1 == k2 && ns1 == ns2 && n1 == n2
  {
    SplitNewResourceID(k1, ns1, n1);
    SplitNewResourceID(k2, ns2, n2);
    KindToStringInjective(k1, k2);
  }

  /** The layout on a namespaced network policy. */
  lemma ExamplePolicyID()
    ensures NewResourceID(CNP, "kube-system", "allow-dns") == "cnp/kube-system/allow-dns"
  {
  }

  /** The layout on a daemon-internal source with an empty namespace. */
  lemma ExampleDaemonID()
    ensures NewResourceID(Daemon, "", "startup") == "daemon//startup"
  {
  }

  /** A cluster-scoped or daemon-internal producer, whose namespace is empty,
      reads back an empty namespace whatever its name. */
  lemma EmptyNamespace(kind: ResourceKind, name: string)
    ensures Namespace(NewResourceID(kind, "", name)) == ""
  {
    NamespaceRoundTrip(kind, "", name);
  }
}
