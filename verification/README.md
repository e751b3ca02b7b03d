# IP cache resource attribution and metadata values

A Dafny model of the primitives in Cilium's `pkg/ipcache/types/types.go`.
This is the vocabulary the IP cache uses to say who produced a piece of
metadata about a prefix, and what that metadata is.

- **Resource attribution** (`resource.dfy`, module `Resource`). `ResourceKind`
  is the closed set of producer categories (`ccnp`, `cidrgroup`, `cnp`,
  `daemon`, `ep`, `file`, `netpol`, `node`). `NewResourceID` builds the key
  `"<kind>/<namespace>/<name>"`. `Namespace` reads the middle field back with a
  split bounded to three parts.
- **String primitives** (`strings.dfy`, module `Strings`). These are Go's
  `strings.Index` and `strings.SplitN` for a one-character separator, which
  `Namespace` is built on. `Join` is the inverse of `SplitN`, which gives
  the split something to be checked against.
- **Decimal rendering** (`decimal.dfy`, module `Decimal`). This is
  `strconv.Itoa` for non-negative numbers, plus a parser that is proved to
  invert it.
- **Metadata values** (`metadata.dfy`, module `Metadata`). `EncryptKey` is a
  `uint8` where 0 means "no key". `RequestedIdentity` is a numeric identity
  where 0 means "no request". `EndpointFlags` has an initialised bit and a
  skip-tunnel flag, and encodes into the fixed 8-bit datapath layout.

Everything is a pure function over immutable values. Go's pointer-receiver
setter `SetSkipTunnel` becomes a function that returns the updated record.
Go's `uint8` is modelled as `bv8`.

Because the split in `Namespace` is bounded to three parts, only the
namespace (and the kind, which never contains `/`) needs to be free of `/` for
the namespace to round-trip; the name may contain any number of them.
`Resource.NamespaceRoundTrip` proves the exact condition in both directions,
and `Resource.NamespaceTruncated` shows what comes back when it fails.

Two reference definitions serve as partners and model no source line of their
own: `Decimal.ParseDecimal`, the parser behind the round trip of
`EncryptKey.String`, accepts exactly the non-empty digit strings; and
`Metadata.DecodeFlags`, the inverse of `EndpointFlags.Uint8` used by
`Metadata.FlagsRoundTrip`, reads bit 0 of a flag byte back as skip-tunnel.

## Model

| member | source | states |
|---|---|---|
| `Strings.IndexByte` | pkg/ipcache/types/types.go:54 | The separator search used by the split returns -1 exactly when the separator is absent. Otherwise it returns a position holding the separator, with none before it. |
| `Strings.SplitN` | pkg/ipcache/types/types.go:54 | The bounded split returns between 1 and n parts. No part except the last contains the separator. The last part contains none either when the bound was not reached. |
| `Strings.SplitNJoin` | pkg/ipcache/types/types.go:54 | Joining the parts with the separator rebuilds the input. There are min(n, separator count + 1) parts. |
| `Strings.SplitNThree` | pkg/ipcache/types/types.go:54 | Three fields joined by two separators split back into the same three fields when the first two are separator-free. The third field may contain separators. |
| `Strings.SplitNThreeMiddle` | pkg/ipcache/types/types.go:54 | If the middle field contains a separator, the second part of the three-way split is that field cut at its first separator. |
| `Resource.ResourceKind.ToString` | pkg/ipcache/types/types.go:29-38 | Every kind identifier is non-empty and contains no `/`. |
| `Resource.KindToStringInjective` | pkg/ipcache/types/types.go:29-38 | Different kinds have different identifiers. |
| `Resource.NewResourceID` | pkg/ipcache/types/types.go:42-51 | The ID is the kind identifier, a `/`, the namespace, a `/`, then the name: each field sits at its fixed offset, the two delimiters sit between them, the first `/` is the one after the kind, and the length is the three field lengths plus 2. |
| `Resource.SplitNewResourceID` | pkg/ipcache/types/types.go:42-59 | Splitting a constructed ID into at most three parts gives back exactly [kind, namespace, name] when the namespace is free of `/`, whatever the name contains. |
| `Resource.Namespace` | pkg/ipcache/types/types.go:53-59 | The extracted namespace never contains `/`. It is empty for any ID without a `/`, where the split yields fewer than two parts. |
| `Resource.NamespaceIsSecondField` | pkg/ipcache/types/types.go:53-59 | The namespace is the text that starts right after the first `/` and runs to the next `/` or to the end of the string. |
| `Resource.NamespaceRoundTrip` | pkg/ipcache/types/types.go:42-59 | `Namespace(NewResourceID(kind, ns, name)) == ns` holds if and only if `ns` contains no `/`. |
| `Resource.NamespaceTruncated` | pkg/ipcache/types/types.go:42-59 | A namespace that contains a `/` comes back cut at its first `/`. |
| `Resource.NewResourceIDInjective` | pkg/ipcache/types/types.go:42-51 | For namespaces free of `/`, equal IDs imply equal kind, namespace and name. So distinct producers never share a cache key. |
| `Resource.EmptyNamespace` | pkg/ipcache/types/types.go:53-59 | A producer with an empty namespace reads back an empty namespace, whatever its kind and name. |
| `Resource.ExamplePolicyID` | pkg/ipcache/types/types.go:42-51 | (cnp, kube-system, allow-dns) encodes to `cnp/kube-system/allow-dns`. |
| `Resource.ExampleDaemonID` | pkg/ipcache/types/types.go:42-51 | (daemon, "", startup) encodes to `daemon//startup`, with both delimiters present. |
| `Decimal.FormatDecimal` | pkg/ipcache/types/types.go:84-86 | The rendering is a canonical digit string (no leading zero unless it is "0") that denotes the input. It is one digit long exactly when the input is below 10. |
| `Decimal.ParseFormat` | pkg/ipcache/types/types.go:84-86 | Parsing a rendering gives the number back. |
| `Decimal.FormatLength` | pkg/ipcache/types/types.go:84-86 | A number below 10^k takes at most k digits, for k of at least 1. |
| `Decimal.FormatValue` | pkg/ipcache/types/types.go:84-86 | Every canonical digit string is the rendering of the number it denotes. So on canonical strings, rendering and parsing invert each other. |
| `Decimal.FormatInjective` | pkg/ipcache/types/types.go:84-86 | Different numbers have different renderings. |
| `Metadata.EncryptKey.Uint8` | pkg/ipcache/types/types.go:80-82 | The raw slot number converts back to the same key. |
| `Metadata.EncryptKey.String` | pkg/ipcache/types/types.go:84-86 | The string is a canonical decimal of one to three digits, and parsing it yields the key's number. |
| `Metadata.EncryptKeyValidity` | pkg/ipcache/types/types.go:74-78 | A key is valid if and only if its number is non-zero. The empty key is the only invalid one. |
| `Metadata.EncryptKeyStringInjective` | pkg/ipcache/types/types.go:84-86 | Two keys with the same string are the same key. |
| `Metadata.RequestedIdentity.ID` | pkg/ipcache/types/types.go:103-105 | The identity comes back unchanged: wrapping it again gives the same request. |
| `Metadata.RequestedIdentityValidity` | pkg/ipcache/types/types.go:99-101 | A request is valid if and only if its identity is non-zero. The only invalid request is identity 0. |
| `Metadata.EndpointFlags.SetSkipTunnel` | pkg/ipcache/types/types.go:121-124 | After the setter the value is valid, and its byte is `FlagSkipTunnel` or 0 as requested. |
| `Metadata.EndpointFlags.Uint8` | pkg/ipcache/types/types.go:130-142 | No bit other than bit 0 is ever set. Bit 0 is set exactly when skip-tunnel is on, so the byte is at most 1. |
| `Metadata.EndpointFlagsZeroValue` | pkg/ipcache/types/types.go:109-128 | The zero value is invalid and encodes to 0. |
| `Metadata.FlagsRoundTrip` | pkg/ipcache/types/types.go:130-142 | Decoding the byte of a valid value gives that value back, so the encoding loses nothing. |
| `Metadata.LastWriteWins` | pkg/ipcache/types/types.go:121-124 | After one or more setter calls the value is initialised and holds the last write, whatever it held before. |
| `Metadata.InitIsOneWay` | pkg/ipcache/types/types.go:109-128 | After any sequence of setters the value is valid if and only if it was valid before or at least one setter ran. No setter ever resets it. |
| `Metadata.ReachableInvalidIsZero` | pkg/ipcache/types/types.go:109-142 | A value reached from the zero value that is still invalid is the zero value, and it encodes to 0. |

## Left out

- `IdentityUpdater` (types.go:17-19): it hands identity changes to the policy engine over a channel. That is concurrency and foreign code.
- `TunnelPeer` and `TunnelPeer.IP` (types.go:61-68): a thin wrapper over the standard library's address-to-slice conversion, with no logic of its own.
- `strings.Builder.Grow` (types.go:44): a capacity hint with no observable effect on the result.
- The allocator side of `RequestedIdentity` (types.go:88-96): withholding the identity beforehand, and whether the allocator honours the request, happen outside this file. `identity.NumericIdentity` is not part of this model. It is taken to be a 32-bit unsigned number.
- Resource.NewResourceID: the kind is a closed datatype of the eight defined constants. In Go, `ResourceKind` is an open string type and could hold a string that contains `/`. The model does not cover such a kind.
- Strings.SplitN: only a count `n >= 0` is modelled. Go's "negative means unbounded" case is never used here, because the call site passes 3.
- Decimal.FormatDecimal: covers non-negative numbers only. `strconv.Itoa` also writes a minus sign for negatives, but the `int` of a `uint8` is never negative.
- Strings are sequences of characters, not bytes. The only separator is the one-byte `/`, so the pieces produced by cutting at `/` are the same either way, although byte and character offsets differ for non-ASCII text. Go strings may also hold bytes that are not valid UTF-8, which a `seq<char>` cannot represent; such strings are not modelled.
