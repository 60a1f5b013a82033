# ipfiltering address classifier, modelled in Dafny

This project models the address classifier of the Go package `ipfiltering`.
The classifier decides whether a network address may pass. Its rule store has three parts:

- an exact-address table that maps a canonical address to a verdict (`true` = allowed);
- an insertion-ordered list of range rules, each keyed by the spec string it was registered under;
- a default verdict.

The model covers the operations that change the store (`ToggleIP`, `AllowIP`, `BlockIP`, `ToggleDefault`, `New`) and the decision (`NetAllowed`, `Allowed`, `Blocked`, `NetBlocked`).

The store is an immutable Dafny value. Each Go method that mutates its receiver becomes a function that returns the new store. `ToggleIP`'s boolean result is returned beside the store.

Files:

- `wrappers.dfy`: `Option`, which stands for Go's `nil` address or a non-nil `error`.
- `net.dfy` (module `Net`): the parts of Go's `net` package that the filter uses.
  - Addresses are kept in canonical form. An IPv4 address or an IPv4-mapped IPv6 address is `V4` with 4 bytes; any other address is `V6` with 16 bytes.
  - Networks are kept in the form `IPNet.Contains` compares them in.
  - A byte is an integer in `0..255`. Masking a byte by a mask byte with `ones` leading one bits (Go's `ip[i] & mask[i]`) clears the low `8 - ones` bits, which the model writes as `x - x % 2^(8 - ones)`.
  - `Contains` is the masked byte comparison that Go performs. `PrefixAgrees` is the textbook bit-prefix reading, and the two are proved equivalent.
  - `ParseIP` and `ParseCIDR` are function-valued fields of a `Parsers` value, which every operation takes as a parameter.
- `ipfiltering.dfy` (module `IpFiltering`): the store and its operations.
  - `Verdict` is the decision rule stated declaratively: an address that did not parse is denied; an exact entry decides on its own; otherwise any allowing range wins over any blocking range; a blocking range alone denies; with no match, the default applies.
  - `NetAllowed` is Go's loop. It returns at the first allowing match (ipfiltering.go:166-168), which gives the same answer as scanning the whole list. It is proved equal to `Verdict`.
  - `Valid` is the store invariant. Range spec strings are unique, and each range rule holds the multi-address network that its string parses to. `New` establishes `Valid` and `ToggleIP` preserves it, so every store a caller can reach satisfies it. The lemmas about range rules assume it.
- `properties.dfy` (module `FilterProperties`): lemmas that connect store transitions to decisions.
- `scenarios.dfy` (module `Scenarios`): the three tests of `ipfiltering_test.go`, plus a single-host (`/32`) scenario, replayed on the model.

## Model

| member | source | states |
|---|---|---|
| `Net.ContainsIffPrefixAgrees` | ipfiltering.go:165 | The masked byte comparison that decides whether a range contains an address holds exactly when the two have the same family and their first `prefix` bits agree. |
| `Net.MaskedByteIffTopBits` | ipfiltering.go:165 | Two bytes are equal under a mask byte with `ones` leading one bits exactly when their first `ones` bits agree. |
| `Net.ByteAlignedContains` | ipfiltering.go:165 | For a prefix that is a whole number of bytes (/8, /16, /24), an address is in the network exactly when it has the network's family and starts with the network's first `prefix / 8` bytes. |
| `Net.SingleHostContainsOnlyBase` | ipfiltering.go:108-112 | A network whose mask covers the whole address (/32 or /128) contains exactly one address, the one with its own bytes. This is why such a CIDR is filed as an exact entry. |
| `IpFiltering.Classify` | ipfiltering.go:106-135 | A spec is tried as a CIDR first and as a plain address second. A CIDR that parses decides alone: a single-host network yields its address as an exact rule, any other network yields a range rule with that network. Otherwise a parsed address yields an exact rule. The spec is unparsable exactly when both parsers fail. |
| `IpFiltering.Upsert` | ipfiltering.go:113-128 | If an entry already carries the spec string, the first such entry gets the new verdict and the length and order are unchanged. Otherwise exactly one entry is appended at the end. |
| `IpFiltering.ToggleIP` | ipfiltering.go:105-137 | Returns true exactly when the spec parses as a CIDR or as an address. On failure the store is unchanged. The default verdict never changes and the store invariant is preserved. An exact spec writes its address into the exact table with the new verdict, changes no other key of the table, changes no other address's verdict and leaves the range list alone. A range spec leaves the exact table alone, so every address with an exact entry keeps its verdict, and it adds at most one entry. |
| `IpFiltering.AllowIP` | ipfiltering.go:97-99 | Succeeds exactly when the spec parses. An exact spec's address is then allowed. |
| `IpFiltering.BlockIP` | ipfiltering.go:101-103 | Succeeds exactly when the spec parses. An exact spec's address is then blocked. |
| `IpFiltering.ToggleDefault` | ipfiltering.go:139-142 | The rules are unchanged. Addresses that no exact entry and no range mentions take the new default. All other addresses keep their verdict. |
| `IpFiltering.ApplyAll` | ipfiltering.go:88-93 | Applying a list of specs keeps the default verdict and preserves the store invariant. |
| `IpFiltering.New` | ipfiltering.go:76-95 | The default verdict is the negation of block-by-default. The built store satisfies the invariant. With both lists empty, every parsed address gets the default verdict. |
| `IpFiltering.NetAllowed` | ipfiltering.go:149-176 | Equals the declarative `Verdict`: a missing address is denied; an exact entry decides; otherwise the answer is allowed iff some containing range allows, or no range contains the address and the default allows. |
| `IpFiltering.Allowed` | ipfiltering.go:144-147 | Decides on the parse of the string. A string that is not an address is denied whatever the default is. |
| `IpFiltering.Blocked` | ipfiltering.go:178-181 | Exactly the negation of the decision. An unparsable string is always blocked. |
| `IpFiltering.NetBlocked` | ipfiltering.go:183-186 | Exactly the negation of the decision for a parsed address. |
| `FilterProperties.ToggleRangeShape` | ipfiltering.go:113-129 | In a valid store, recording a range spec writes one entry: either the existing entry for that string, or a new last entry. That entry holds the spec's network and the new verdict. Every other entry and the exact table are unchanged. |
| `FilterProperties.ToggleRangeCovered` | ipfiltering.go:113-175 | After a range is recorded, an address inside it with no exact entry is allowed iff the new verdict is allow or a range under another spec string allows it. The range's earlier verdict no longer counts. |
| `FilterProperties.ToggleRangeOutside` | ipfiltering.go:113-175 | Recording a range changes no verdict outside that range. |
| `FilterProperties.UpsertTwice` | ipfiltering.go:114-128 | Updating the same spec string twice gives the same list as doing only the second update. |
| `FilterProperties.ToggleLastWins` | ipfiltering.go:105-137 | Toggling a spec twice gives the same store and result as toggling it once with the second verdict. With equal verdicts, toggling is idempotent. |
| `FilterProperties.ToggleCidr` | ipfiltering.go:106-128 | For a spec that parses as a CIDR, a single-host network writes the exact table under the parsed address, and any other network updates or appends the range entry for the spec string. The call reports success either way. |
| `FilterProperties.ExactSurvivesRange` | ipfiltering.go:157-160 | After an address is recorded exactly, recording any range later, even one that contains the address, leaves its verdict at the recorded one. |
| `FilterProperties.ApplyAllKeepsExact` | ipfiltering.go:88-93 | While a list is applied with one verdict, an exact entry that already holds that verdict keeps it. |
| `FilterProperties.ApplyAllWritesExact` | ipfiltering.go:88-93 | Every exact spec in a list ends with the list's verdict. |
| `FilterProperties.ApplyAllKeepsUnnamed` | ipfiltering.go:88-93 | An address that no spec in the list names exactly keeps its exact entry, or keeps having none. |
| `FilterProperties.ApplyAllKeepsRange` | ipfiltering.go:88-93 | A range entry that already holds the list's verdict keeps its position and its contents. |
| `FilterProperties.ApplyAllWritesRange` | ipfiltering.go:88-93 | Every range spec in a list ends as an entry with its network and the list's verdict. |
| `FilterProperties.ApplyAllConcat` | ipfiltering.go:88-93 | Applying a list in two parts gives the same store as applying it whole. |
| `FilterProperties.ApplyAllSkipsUnparsable` | ipfiltering.go:88-93 | A spec that parses neither as a CIDR nor as an address has no effect, wherever it stands in the list. |
| `FilterProperties.NewSkipsUnparsable` | ipfiltering.go:82-94 | `New` silently ignores an unparsable entry in either list. |
| `FilterProperties.NewAllowsExact` | ipfiltering.go:88-93 | An exact spec on the allow list is allowed, whatever the block list holds, because the block list is applied first. |
| `FilterProperties.NewAllowsRange` | ipfiltering.go:88-93 | A range on the allow list allows every address it contains that has no exact entry, whatever the block list holds. |
| `FilterProperties.NewBlocksExact` | ipfiltering.go:88-93 | An exact spec on the block list is blocked unless the allow list names the same address exactly. |
| `Scenarios.SingleIPScenario` | ipfiltering_test.go:10-19 | With block-by-default and one allowed address, that address passes and its neighbour is blocked. This holds both by string and by parsed address. |
| `Scenarios.SubnetScenario` | ipfiltering_test.go:21-29 | Allowing 10.0.0.0/16 with block-by-default allows 10.0.0.1 and 10.0.42.1 and blocks 10.42.0.1. |
| `Scenarios.SubnetVerdict` | ipfiltering_test.go:21-29 | The store that TestSubnetIP builds admits an address exactly when it is an IPv4 address starting with 10.0. |
| `Scenarios.DynamicScenario` | ipfiltering_test.go:31-36 | With no rules an address passes. After `BlockIP` on it, the call reports success and the address is blocked. |
| `Scenarios.SingleHostScenario` | ipfiltering.go:107-112 | An allowed /32 becomes an exact entry. A later block of the enclosing /24 leaves that address allowed and blocks its neighbour. |
| `Scenarios.SingleHostVerdict` | ipfiltering.go:107-175 | After allowing 203.0.113.5/32 and then blocking 203.0.113.0/24 under an allowing default, the store admits an address exactly when it is the /32's address or lies outside the /24. |

## Left out

- Middleware, MiddlewareOptions, getIp and ServeHTTP (ipfiltering.go:188-218): an HTTP adapter over `net/http` and `net.SplitHostPort`, which are code outside this model. `getIp` passes a forwarded-for token through `net.SplitHostPort` (ipfiltering.go:207), which yields `""` for a token without a port, so such a request is denied.
- Text parsing and formatting (`net.ParseIP`, `net.ParseCIDR`, `IP.String`): Go standard-library code that is not part of this model. The parsers are parameters. Canonical form is assumed through the types `IP` and `IPNet`.
- IPv4-mapped IPv6 networks: `IPNet.Contains` compares these as IPv4 networks (Go's `networkNumberAndMask`). The model assumes the parser has already done this conversion.
- `NetAllowed` on a malformed `net.IP` (a byte slice whose length is neither 4 nor 16): the model's inputs are canonical addresses or `None`.
- The `Logger` option and its stdout default (ipfiltering.go:56-58, 78-81): I/O only.
- The `opts` field kept in the store (ipfiltering.go:62): decisions never read it.
- The `codes` map (ipfiltering.go:65): it is never used.
- Concurrency: the store has no lock (ipfiltering.go:3), so only single-threaded use is modelled.
- Pointer identity of `*subnet` entries, which `ToggleIP` updates in place: the store is never aliased outside the filter, so value semantics give the same behaviour.
