# ipx origin discovery, modelled in Dafny

ipx looks for the origin server behind a reverse proxy or CDN. It fetches
the domain's page through the proxy (`https://domain`) and notes the length
of its body. It then walks every IPv4 address of a CIDR block and sends each
address a plain `http://address` request with the domain as `Host` header.
It prints every address whose response has status 200 and a body length
within `delta` bytes of the proxy's length.

The model has four modules:

- `Bits` (bits.dfy): powers of two, division facts, and Go's `&` and `|` on
  bytes written out bit by bit.
- `IP` (ip.dfy): addresses as big-endian byte sequences with their numeric
  value; `Successor`, the increment as a function; and `Inc`, the in-place
  increment of `inc` as a method over an `array<Byte>`, proved equal to
  `Successor`.
- `CIDR` (cidr.dfy): the parts of Go's `net` package the scanner relies on.
  These are the block `ParseCIDR` returns, its mask, `IP.Mask` and
  `IPNet.Contains`, written as functions. Around them are lemmas saying which
  addresses the enumeration loop visits.
- `Scan` (scan.dfy): `isWithinRange`, the worker's decision, the status-200
  filter of `sendHTTPRequest`, and the command itself as `Scan.Scan`.
  - `Scan.Scan` stops when the baseline fetch fails.
  - Otherwise it runs the enumeration loop, `Scan.Sweep`. The loop holds the
    current address in a 4-byte array, checks `Contains` and calls `Inc` on
    the array, as the source does.

Inputs the source reads from the network or the command line are
parameters:

- the outcome of the baseline fetch;
- the outcome of probing each address, a function `Addr -> Outcome`;
- the tolerance `delta`.

Each outcome is `Failed`, or a `Response` with a status code and a body
length.

## Model

| member | source | states |
|---|---|---|
| IP.Inc | main.go:69-76 | the array after the call is `Successor` of the array before it; the length is unchanged |
| IP.SuccessorValue | main.go:69-76 | the incremented address has value (old value + 1) mod 256^len |
| IP.SuccessorCarry | main.go:69-76 | with k the last byte below 0xFF, the bytes before k stay, byte k gains one and every later byte becomes 0 |
| IP.SuccessorWraps | main.go:69-76 | an all-0xFF address becomes all zeros |
| IP.SuccessorCarryExamples | main.go:69-76 | x.y.z.255 steps to x.y.(z+1).0 and x.y.255.255 to x.(y+1).0.0 |
| CIDR.NetworkOfBlock | main.go:35-51 | the loop's start `ip.Mask(ipnet.Mask)` is the network address of the block `ParseCIDR` returns |
| CIDR.MaskValue | main.go:51 | masking with a /p mask rounds the value down to a multiple of 2^(32-p) |
| CIDR.NetworkFits | main.go:51 | the network address plus the block size stays within 2^32 |
| CIDR.ContainsRange | main.go:51 | `Contains` holds exactly for the values in [network, network + 2^(32-p)) |
| CIDR.BroadcastValue | main.go:51 | the broadcast address is network + size - 1 |
| CIDR.AddressesAscending | main.go:51 | the block lists 2^(32-p) addresses in strictly ascending order, all distinct |
| CIDR.AddressesEnds | main.go:51 | the first listed address is the network address and the last the broadcast address |
| CIDR.AddressesExactly | main.go:51 | an address is listed exactly when the block contains it |
| CIDR.AddressesStep | main.go:51 | each listed address is the increment of the one before it |
| CIDR.NextAddress | main.go:69-76 | an address whose value is one more than x's is the increment of x |
| CIDR.SingleHost | main.go:35-51 | a /32 block lists exactly the address given |
| CIDR.ContainsAtStep | main.go:51 | for p >= 1, after k increments from the network address the guard holds exactly while k < 2^(32-p), and the address is then the k-th of the block |
| CIDR.PrefixZeroNeverExits | main.go:51 | for /0 every address and its increment are contained, and the broadcast address wraps to the network address, so the loop never exits |
| Scan.Body | main.go:110-120 | a probe yields a body exactly when the exchange succeeded with status 200; the body is the response's |
| Scan.WithinRangeInterval | main.go:123-125 | a length matches exactly when it lies in [proxy - delta, proxy + delta] |
| Scan.WithinRangeSymmetric | main.go:123-125 | swapping the direct and proxy lengths does not change the answer |
| Scan.WithinRangeMonotone | main.go:123-125 | a larger delta accepts everything a smaller one does |
| Scan.WithinRangeEdges | main.go:123-125 | a negative delta accepts nothing; delta 0 accepts only the exact length |
| Scan.WithinRangeExamples | main.go:123-125 | with proxy length 1000 and delta 50, 950 and 1050 match and 949 and 1051 do not; with delta 0, 999 and 1001 do not match |
| Scan.Worker | main.go:78-91 | a report is produced exactly when the probe succeeded with status 200 and its length is within range; it holds the host and that length |
| Scan.ReportsExactly | main.go:51-54 | a report is in the output exactly when its host was probed and that host's worker produced it |
| Scan.ReportsBound | main.go:51-54 | there are no more reports than probed addresses |
| Scan.TransportErrorIsolated | main.go:81-84 | a failed probe of one address removes that address's report and changes no other |
| Scan.VisitedStart | main.go:51 | the loop starts at the network address with nothing probed |
| Scan.VisitedStep | main.go:51 | a contained current address is the next address of the block, and incrementing it keeps the loop state |
| Scan.VisitedEnd | main.go:51 | when the guard fails, every address of the block has been probed |
| Scan.Sweep | main.go:51-54 | probes exactly the block's addresses, in ascending order, and yields the reports of their workers |
| Scan.Scan | main.go:35-56 | a failed baseline fetch stops before any probe; otherwise every address of the block is probed once, in order, and the reports are the workers' reports against the baseline length |

## Left out

- HTTP and TLS (client, timeout, skipped certificate checks, building the
  URL, `Host` header): each exchange is represented by its `Outcome`.
- A failure to read the body counts as `Failed`, like every other error of
  `sendHTTPRequest`.
- The probe of an address is modelled as a fixed function of the address.
  A network whose answers change over time is not modelled.
- Goroutines and the `WaitGroup`: workers are modelled as running one after
  another in launch order. In the source they run concurrently, so the
  printed lines can come out in any order. The model states which lines are
  printed, not their order.
- Command-line flags and `cobra`, printing, and `os.Exit`:
  - the flags are parameters;
  - a report stands for a printed line;
  - `BaselineUnavailable` stands for the exit after a failed baseline fetch.
- Parsing the CIDR string and its error exit: the model starts from the
  parsed address and prefix length.
- IPv6 and the 16-byte form of IPv4 addresses: addresses are 4 bytes.
- Scan.Scan: requires a prefix of at least 1, because for /0 the source's
  loop never terminates. `CIDR.PrefixZeroNeverExits` proves that.
- The global variables `delta` and `proxyContentLength` are parameters.
- The float64 arithmetic of `isWithinRange` is modelled in exact integers.
  This matches the source only while the lengths and `delta` are below
  2^53.
- Go's 64-bit `int` is not modelled: lengths and `delta` are unbounded.
