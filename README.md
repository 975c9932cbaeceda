# infrabase: SSH-config generator and Nix serialiser, modelled in Dafny

infrabase is a machine inventory. Its `ssh_config` command prints an SSH
client configuration for one source machine. This project models two parts of
the program:

- **The SSH-config generator** (`print_ssh_config` in `src/main.rs`). The
  loaded inventory is an input: a sequence of `MachineEntry` values, each a
  machine with the addresses that belong to it. The generator first looks for
  the machine whose hostname is the requested source. If none has it, the
  result is the `MissingSourceMachine` error, and nothing is printed. Otherwise
  it prints a header line and an empty line. Then it walks every machine in
  inventory order. A machine has an endpoint only when it has exactly one
  address. The endpoint is that address's IP (prefix length dropped) and its
  SSH port. A `Host` block is printed only when the port is present. The
  source machine is not skipped. The printed output is modelled as a sequence
  of lines. `PrintSshConfig` is the imperative version (a `for` loop appending
  to the output). `SshConfig` is the specification it is proved equal to.
- **The links map** (`networks_links_map` in `src/main.rs`). Network-link rows
  are folded into a map from `(network, other_network)` to priority. Rows are
  inserted in order, so a later row replaces an earlier one with the same key.
- **The Nix serialiser** (`ToNix` in `src/nix.rs`). A string is wrapped in
  double quotes, with no escaping. IP addresses are quoted in their textual
  form. An `i32` is unquoted decimal. `None` is `null`, and `Some(v)` is
  whatever `v` serialises to.

Files and modules:
- `wrappers.dfy` (`Wrappers`): `Option` and `Result`.
- `numeric.dfy` (`Numeric`): fixed-width integer types, and integer rendering
  in a radix (Rust's `Display` and `{:x}`) with parsers that undo it.
- `net.dfy` (`Net`): IPv4, IPv6, `IpAddr`, the `ipnetwork` crate's
  `IpNetwork` and their textual forms. Also a dotted-decimal parser.
- `models.dfy` (`Models`): the inventory rows, with only the fields the code
  reads. `src/models.rs` is not part of this model.
- `nix.dfy` (`Nix`): the `ToNix` implementations.
- `app.dfy` (`App`): `networks_links_map`, `print_ssh_config` and the `Error`
  type of `src/main.rs`.

A few choices the code does not settle on its own:
- Each `Host` block is five lines. `indoc!` drops the literal's leading
  newline and keeps its trailing one. `println!` then adds another newline. So
  the four block lines are followed by one empty line. The header is likewise
  followed by one empty line.
- A port is a 16-bit unsigned integer, and a link priority is an `i32`
  (`src/main.rs:45`).
- `print_ssh_config` computes the source machine's networks
  (`source_networks`, `src/main.rs:70-75`) and never reads them. The method
  computes them too, with `Networks`, and never reads them either.
  `SshConfigIndependentOfSource` states that, after the header, the output is
  the same for every source machine that exists.

## Model

| member | source | states |
|---|---|---|
| App.NetworksLinksMap | src/main.rs:47-54 | the map's key set is exactly the set of `(name, other_network)` pairs of the rows |
| App.NetworksLinksMapLastWins | src/main.rs:51-53 | a row with no later row of the same key has its priority stored under its key (later rows win) |
| App.NetworksLinksMapValue | src/main.rs:51-53 | every stored priority is that of some row with the key and no later row with that key |
| App.Networks | src/main.rs:72-74 | the source machine's networks, one per address in order (the value is never read) |
| App.FindSource | src/main.rs:69 | no result exactly when no machine has the hostname; otherwise the result is the first entry with that hostname |
| App.Endpoint | src/main.rs:80-83 | the port is present iff there is exactly one address and it has a port; the endpoint is then that address's IP text (prefix dropped) and its port; with any other number of addresses it is `("", None)` |
| App.MachineBlock | src/main.rs:84-91 | a machine contributes lines iff it has exactly one address with a port; those lines are `# <owner>'s`, `Host <hostname>`, `  HostName <ip>`, `  Port <port>` and an empty line |
| App.EmittingIndicesSpec | src/main.rs:79-92 | the machines that get a block are listed in increasing inventory order, and a machine is listed iff it has exactly one address and that address has a port; the source is not excluded |
| App.BlocksLength | src/main.rs:79-92 | the blocks take five lines for each machine listed |
| App.BlockAt | src/main.rs:79-92 | the j-th five-line group of the output is the block of the j-th listed machine |
| App.SshConfig | src/main.rs:69-77 | error iff no machine has the source hostname, and then it is `MissingSourceMachine(source)` with no output; otherwise line 0 is the header naming the source, line 1 is empty, and the rest are the blocks of all machines |
| App.SshConfigIndependentOfSource | src/main.rs:70-92 | for two source hostnames that both exist, the output after the header is the same |
| App.PrintSshConfig | src/main.rs:56-94 | the loop that returns early on a missing source and appends each machine's block yields exactly `SshConfig` |
| App.ExampleBlocks | src/main.rs:79-92 | for a machine with one address `10.1.1.1/24` and port 22, followed by a machine with two addresses, only the first gets a block, and it shows `10.1.1.1` |
| Net.Ipv4TextRoundTrip | src/main.rs:81 | parsing the dotted-decimal text of an IPv4 address gives back the address |
| Nix.StringToNix | src/nix.rs:5-10 | the result is two characters longer, starts and ends with `"`, and has the string itself, unchanged, in between |
| Nix.StringToNixRoundTrip | src/nix.rs:6-9 | removing the enclosing quotes gives back the string |
| Nix.StringToNixQuotes | src/nix.rs:7-8 | the result has exactly two more `"` characters than the string: inner quotes are not escaped |
| Nix.IpToNix | src/nix.rs:12-16 | unquoting gives the address's text; for V4 and V6 the result is the `Ipv4Addr`/`Ipv6Addr` serialisation |
| Nix.Ipv4ToNix | src/nix.rs:18-22 | unquoting gives the dotted-decimal text |
| Nix.Ipv4ToNixRoundTrip | src/nix.rs:18-22 | unquoting and then parsing the dotted-decimal text gives back the address |
| Nix.Ipv6ToNix | src/nix.rs:24-28 | unquoting gives the address's text |
| Nix.I32ToNix | src/nix.rs:30-34 | unquoted decimal: a leading `-` iff negative, digits otherwise, no leading zeros, and parsing it back gives the number |
| Nix.OptionToNix | src/nix.rs:36-43 | `Some(v)` renders as `v` does; the result is `null` iff the option is `None` or its value renders as `null` |
| Nix.OptionToNixInjective | src/nix.rs:36-43 | over an injective serialiser that never yields `null`, different options render differently |
| Nix.StringOptionToNixInjective | src/nix.rs:36-43 | `Option<String>` renders injectively |
| Nix.I32OptionToNixInjective | src/nix.rs:36-43 | `Option<i32>` renders injectively |
| Nix.NestedOptionToNixNotInjective | src/nix.rs:36-43 | `Some(None)` and `None` of a nested option both render as `null` |

## Left out

- Database access is left out: `establish_connection`, the diesel
  `load`/`belonging_to`/`grouped_by` calls and the `network_links` table load.
  These are foreign library I/O. The grouped machine list and the link rows are
  inputs instead. The diesel `.expect` panics on load errors are therefore not
  modelled.
- `import_env`, dotenv, `DATABASE_URL` and the `ReadConfiguration` error are
  left out. They are environment and file I/O.
- The `structopt` CLI (`Opt`), `run`, `main`, `env_logger` and the `eprintln!`
  report are left out. They are argument parsing and process plumbing.
  Because of this, the display text of `MissingSourceMachine` (which uses
  `{:?}` Debug escaping) is not modelled.
- Writing to standard output is modelled as producing a sequence of lines.
  Byte-level newline handling is not.
- Net.Ipv6Text: renders the eight groups in lower-case hexadecimal joined by
  `:`. It does not apply the RFC 5952 compression (`::`) that the standard
  library's `Display` applies, nor the IPv4-mapped form. So `Nix.Ipv6ToNix`,
  `Nix.IpToNix` and `HostName` lines for IPv6 addresses hold that simplified
  text. Their contracts only say the result is the quoted or inserted text,
  whatever the rendering.
- `Machine` and `MachineAddress` carry only the fields the code touches.
  `src/models.rs` and `src/schema.rs` are not part of this model.
