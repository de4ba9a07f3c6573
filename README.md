# netprobe, modelled in Dafny

netprobe does reverse DNS in bulk. It reads lines from standard input. A line
that holds a `/` is a CIDR block. That block is expanded into every one of its
addresses, from the network address to the last (broadcast) address, and each
address is queued. Any other line is queued unchanged. A fixed pool of worker
goroutines takes addresses off the queue and looks up each one's PTR records.
A worker skips an address whose lookup fails. Otherwise it emits one line per
hostname: the name with its trailing dot removed, and with `ip: ` in front in
verbose mode.

The model is organised by the program's parts:

- `wrappers.dfy`, module `Wrappers`: the `Option` type used for lookups and parses that can fail.
- `bits.dfy`, module `Bits`: Go bytes, and the `|`, `&` and `^` operators on them, defined bit by bit. It also holds the bit lemmas the CIDR proofs need.
- `ipv4.dfy`, module `IPv4`: addresses as byte slices. `Value` is the big-endian number a slice stands for, and `ToBytes` is its inverse modulo 256^n. `incrementIP` is the in-place method `IncrementIP` on an `array`, and `ip.Equal` is the byte-by-byte comparison `Equal`.
- `cidr.dfy`, module `Cidr`:
  - A parsed block, `Block(addr, prefix)`.
  - `net.CIDRMask` as `PrefixMask`.
  - `ip.Mask` as `Masked` and `Network`.
  - `ipnet.Contains` as `Contains`.
  - `lastAddress` as the method `LastAddress`, proved equal to the function `Broadcast`.
- `cidr_range.dfy`, module `CidrRange`: the numeric shape of a block. Its last address is the network address plus 2^(32 - prefix) - 1. `Contains` holds exactly for the addresses whose value lies between those two.
- `expander.dfy`, module `Expander`:
  - The expansion loop of the reading goroutine, `ExpandBlock`, which runs over a 4-byte array with `IncrementIP`.
  - The per-line handling, `ReadInput`.
  - Reference functions for what gets queued (`Queued`) and what gets reported (`Diagnostics`).
- `worker.dfy`, module `Workers`:
  - The worker loop, `Worker`, and its output formatting.
  - A value model of the worker pool. Each address goes to one worker. `PoolComplete` shows that the pool emits the same multiset of lines whichever way the addresses are distributed.

Library calls the program makes are parameters of the model:

- `net.ParseCIDR` is `parse: string -> Option<Block>`.
- `ip.String()` is `render: Address -> string`.
- `resolver.LookupAddr` is `lookup: string -> Option<seq<string>>`. `None` stands for an error.

The `verbose` flag is a parameter `verbose: bool`.

A block's address is taken in its 4-byte form. That is the form `ip.Mask(ipnet.Mask)` returns for an IPv4 block with a 4-byte mask, so the expansion loop always increments a 4-byte slice.

`strings.TrimSuffix(hostname, ".")` removes one dot only, so a name ending in `..` keeps one. The model follows the code (`Workers.TrimmedDot`). It proves that trimming twice changes nothing only for names that do not end in `..` (`Workers.TrimmedTwice`), and that an output line ends in a dot exactly when the hostname ended in `..` (`Workers.LineShape`).

## Model

| member | source | states |
|---|---|---|
| IPv4.IncrementIP | main.go:98-105 | after the call the array holds the big-endian encoding, in the same number of bytes, of the old value plus one modulo 256^length |
| IPv4.ToBytes | main.go:98-105 | the encoding has exactly the requested number of bytes, so IncrementIP's ensures compares the new array with a sequence of the array's own length |
| IPv4.ValueOfToBytes | main.go:98-105 | reading an n-byte encoding back gives the number modulo 256^n: the increment adds exactly one, modulo 256^n |
| IPv4.IncrementBelowTop | main.go:98-105 | below the top value, incrementing raises the value by exactly one |
| IPv4.CarryAt | main.go:99-103 | when byte j is the last byte that is not 0xFF, the bytes before j are kept, byte j goes up by one and the bytes after it become zero |
| IPv4.CarryWrap | main.go:99-104 | an all-0xFF slice wraps to all zeros |
| IPv4.EqualSame | main.go:81 | ip.Equal, comparing the two slices byte by byte, holds exactly when they are the same address |
| IPv4.ValueInjective | main.go:81 | two slices of one length with the same value are equal, so comparing addresses by value is comparing them byte by byte |
| Cidr.LastAddress | main.go:107-113 | lastAddress returns, byte for byte, the network byte ORed with the inverted mask byte, which is Broadcast |
| Cidr.LastByte | main.go:110 | one byte, the network byte ORed with the inverted mask byte, agrees with the network byte wherever the mask is set and has every other bit set |
| Cidr.Broadcast | main.go:107-113 | the last address has the network's length, agrees with the network under the mask, and has all host bits set |
| Cidr.BroadcastUnique | main.go:107-113 | no other slice agrees with the network under the mask and has all host bits set |
| Cidr.BroadcastAtLeast | main.go:107-113 | the last address is never below the network address; with the host bits clear it equals the network address exactly when every mask byte is 0xFF |
| Cidr.BroadcastFull | main.go:107-113 | under an all-0xFF mask the last address is the address itself |
| Cidr.BroadcastFixed | main.go:107-113 | if the host bits are clear and ORing in the inverted mask changes nothing, every mask byte is 0xFF |
| Cidr.AgreeEach | main.go:79 | the loop guard ipnet.Contains holds exactly when every byte agrees with the network address under the mask |
| CidrRange.LastValue | main.go:81 | the last address stands for the network address plus 2^(32 - prefix) - 1 |
| CidrRange.ContainsRange | main.go:79 | ipnet.Contains(ip) holds exactly when ip's value lies from the network address to the network address plus 2^(32 - prefix) - 1 |
| Expander.ExpandBlock | main.go:79-84 | the loop from ip.Mask(ipnet.Mask), under ipnet.Contains, breaking at lastAddress and otherwise calling incrementIP, sends the rendering of every address of BlockRange, in order |
| Expander.RangeShape | main.go:79-84 | the expansion has 2^(32 - prefix) addresses, starts at the network address, ends at the last address, and is strictly ascending, so it has no duplicates |
| Expander.RangeMembers | main.go:79-84 | an address is in the expansion exactly when ipnet.Contains accepts it: nothing omitted, nothing extra |
| Expander.RangeSound | main.go:79 | every expanded address lies in the block |
| Expander.RangeComplete | main.go:79-84 | every address of the block is expanded |
| Expander.Position | main.go:79-84 | an address of the block sits at the position of its distance from the network address |
| Expander.RangeValue | main.go:79-84 | the k-th expanded address stands for the network address plus k |
| Expander.RangeFirst | main.go:79 | the expansion starts at the masked address |
| Expander.RangeFinal | main.go:81-82 | the expansion ends at lastAddress |
| Expander.RangeAtLast | main.go:81-83 | the loop meets lastAddress only at the final position, so the break sends nothing twice and skips nothing |
| Expander.RangeNext | main.go:79 | before the last address, incrementIP moves to the next address of the expansion |
| Expander.SingleHost | main.go:79-84 | a /32 block expands to just the address written |
| Expander.NewAddress | main.go:79 | the loop variable starts as a new 4-byte slice holding the network address |
| Expander.ReadInput | main.go:68-91 | reading the lines queues exactly Queued(lines) and reports exactly Diagnostics(lines) |
| Expander.QueuedAppend | main.go:70-89 | lines are handled independently: the output for a concatenation of inputs is the concatenation of their outputs, for the queue and for the diagnostics |
| Expander.AroundLine | main.go:70-89 | the lines around one line are handled as if it were absent, plus that line's own contribution |
| Expander.BareLine | main.go:85-88 | a line without '/' is queued verbatim and reports nothing |
| Expander.InvalidLine | main.go:74-77 | a '/' line that does not parse queues nothing, writes exactly "Invalid CIDR block: <line>\n", and the lines after it are still handled |
| Expander.BlockLine | main.go:72-84 | a block line queues the rendering of every address of the block and reports nothing |
| Workers.TrimSuffix | main.go:29-31 | strings.TrimSuffix: when s ends with the suffix, the result followed by the suffix is s; otherwise s is unchanged |
| Workers.TrimmedDot | main.go:29-31 | exactly one trailing dot is removed when there is one; otherwise the name is unchanged |
| Workers.TrimmedTwice | main.go:29-31 | trimming again changes nothing, unless the name ended in two dots |
| Workers.LineShape | main.go:28-32 | a verbose line starts with the address and ": " and continues with the plain line; a line ends in a dot exactly when the hostname ended in two dots |
| Workers.Worker | main.go:19-35 | the worker emits exactly WorkerOutput(ips): for each address in order, one formatted line per hostname, in the order returned, and nothing when the lookup fails |
| Workers.OutputAppend | main.go:21-35 | the output for a concatenation of inputs is the concatenation of the outputs |
| Workers.FailedLookup | main.go:22-25 | an address whose lookup fails adds nothing, and the addresses after it are still handled |
| Workers.OutputLines | main.go:21-34 | a line is emitted exactly when some address resolved to some hostname that formats to that line |
| Workers.OutputCount | main.go:26-34 | the number of lines is the total number of hostnames of the addresses that resolved |
| Workers.TakenShare | main.go:21 | what worker w receives is, as a multiset, its share: the in-order subsequence of the addresses assigned to it |
| Workers.ShareCover | main.go:57-60 | when every address is assigned to one of workers 0 .. k-1, their shares together are the queued addresses, each exactly as often as it was queued |
| Workers.EmittedLines | main.go:57-59 | what worker w emits is, as a multiset, the worker's output for its share of the addresses |
| Workers.PoolStep | main.go:57-59 | the last address adds its lines to the pool's output exactly once if its worker is in the pool, and nothing otherwise |
| Workers.PoolComplete | main.go:45-65 | however the queue distributes the addresses among the workers, the pool emits the same multiset of lines as one worker handling all addresses in order: no duplicates, nothing missing |
| Workers.PoolCount | main.go:45-65 | whatever the worker count and distribution, the pool emits exactly one line per hostname of every address that resolved |

## Left out

- Goroutines, channels, `sync.WaitGroup` and closing the channels are not modelled as processes. The pool is a value: `owner[i]` names the worker that takes address i, and `PoolComplete` proves that the multiset of output lines does not depend on that choice. Interleaving, buffering and termination are not modelled.
- The order in which lines from different workers reach standard output is unspecified, so pool output is a multiset. The per-worker order is kept in `WorkerOutput`.
- `resolver.LookupAddr` and its UDP dialer, the DNS address and the port are outside the model. A lookup is the deterministic parameter `lookup`, with `None` for any error.
- Inside `net.ParseCIDR` and `ip.String()` is library code. They are the parameters `parse` and `render`. A parsed IPv4 block is taken as a 4-byte address and a prefix up to 32; the mask is its 4-byte form.
- `net.CIDRMask`, `ip.Mask`, `ipnet.Contains` and `ip.Equal` are modelled on 4-byte addresses from their documented behaviour. IPv6 and 16-byte forms are left out.
- Cidr.LastAddress: requires the mask to be at least as long as the address. With a shorter mask the Go loop would panic on an index, and the model does not represent the panic.
- Reading lines with `bufio.Scanner` is the input sequence `lines`. Scanner errors and over-long lines are not modelled. Writing to standard output and standard error is modelled as the sequences the program would write.
- Flag parsing is not modelled; `verbose` is a parameter. The model assigns every address to one of workers 0 .. k-1, so with any input it has k >= 1. With `-c 0` no worker starts, `wg.Wait()` returns at once, `close(results)` ends the output loop, and the process exits with no output. With a negative `-c`, `make(chan string, concurrency)` panics. Neither case is modelled.
