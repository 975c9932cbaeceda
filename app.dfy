/**
 * The command's logic: the network-links map and the SSH client
 * configuration generated for one source machine.
 */
module App {
  import opened Wrappers
  import opened Numeric
  import opened Net
  import opened Models

  datatype Error = MissingSourceMachine(sourceMachine: string)

  /** A key of the links map: `(network, other_network)`. */
  type LinkKey = (string, string)

  function KeyOf(row: NetworkLink): LinkKey
  {
    (row.name, row.otherNetwork)
  }

  /** Inserts the rows one after another, so a later row replaces an earlier one with its key. */
  function NetworksLinksMap(rows: seq<NetworkLink>): (m: map<LinkKey, int32>)
    ensures m.Keys == set i | 0 <= i < |rows| :: KeyOf(rows[i])
  {
    if rows == [] then map[]
    else
      var front, last := rows[..|rows| - 1], rows[|rows| - 1];
      var m := NetworksLinksMap(front)[KeyOf(last) := last.priority];
      assert m.Keys == (set i | 0 <= i < |front| :: KeyOf(front[i])) + {KeyOf(last)};
      assert forall i | 0 <= i < |rows| :: KeyOf(rows[i]) in m.Keys by {
        forall i | 0 <= i < |rows| ensures KeyOf(rows[i]) in m.Keys {
          if i < |front| { assert rows[i] == front[i]; }
        }
      }
      m
  }

  /** The priority stored for a key is that of the last row with the key. */
  lemma {:induction false} NetworksLinksMapLastWins(rows: seq<NetworkLink>, i: nat)
    requires i < |rows|
    requires forall j | i < j < |rows| :: KeyOf(rows[j]) != KeyOf(rows[i])
    ensures KeyOf(rows[i]) in NetworksLinksMap(rows)
    ensures NetworksLinksMap(rows)[KeyOf(rows[i])] == rows[i].priority
  {
    if i < |rows| - 1 {
      var front := rows[..|rows| - 1];
      assert forall j | i < j < |front| :: front[j] == rows[j];
      NetworksLinksMapLastWins(front, i);
    }
  }

  /** Every stored priority comes from the last row carrying its key. */
  lemma {:induction false} NetworksLinksMapValue(rows: seq<NetworkLink>, k: LinkKey)
    requires k in NetworksLinksMap(rows)
    ensures exists i | 0 <= i < |rows| ::
      KeyOf(rows[i]) == k && NetworksLinksMap(rows)[k] == rows[i].priority
      && forall j | i < j < |rows| :: KeyOf(rows[j]) != k
  {
    var last := |rows| - 1;
    if KeyOf(rows[last]) == k {
      NetworksLinksMapLastWins(rows, last);
    } else {
      var front := rows[..last];
      NetworksLinksMapValue(front, k);
      var i :| 0 <= i < |front| && KeyOf(front[i]) == k
        && NetworksLinksMap(front)[k] == front[i].priority
        && forall j | i < j < |front| :: KeyOf(front[j]) != k;
      assert rows[i] == front[i];
      assert forall j | i < j < |rows| :: KeyOf(rows[j]) != k by {
        forall j | i < j < |rows| ensures KeyOf(rows[j]) != k {
          if j < last { assert rows[j] == front[j]; }
        }
      }
    }
  }

  /** The networks of the source machine's addresses (computed by the source, never read). */
  function Networks(addresses: seq<MachineAddress>): (r: seq<string>)
    ensures |r| == |addresses| && forall i | 0 <= i < |r| :: r[i] == addresses[i].network
  {
    seq(|addresses|, i requires 0 <= i < |addresses| => addresses[i].network)
  }

  /** The first entry whose machine has the given hostname. */
  function FindSource(data: seq<MachineEntry>, hostname: string): (r: Option<MachineEntry>)
    ensures r.None? <==> forall i | 0 <= i < |data| :: data[i].machine.hostname != hostname
    ensures r.Some? ==> exists i | 0 <= i < |data| ::
      data[i] == r.value && data[i].machine.hostname == hostname
      && forall j | 0 <= j < i :: data[j].machine.hostname != hostname
  {
    if data == [] then None
    else if data[0].machine.hostname == hostname then Some(data[0])
    else
      var r := FindSource(data[1..], hostname);
      assert forall i | 1 <= i < |data| :: data[i] == data[1..][i - 1];
      r
  }

  /**
   * The endpoint of a machine: the IP (without prefix) and SSH port of its
   * address when it has exactly one; `("", None)` otherwise.
   */
  function Endpoint(addresses: seq<MachineAddress>): (r: (string, Option<Port>))
    ensures r.1.Some? <==> |addresses| == 1 && addresses[0].sshPort.Some?
    ensures r.1.Some? ==> r.0 == IpText(addresses[0].address.ip) && r.1 == addresses[0].sshPort
    ensures |addresses| != 1 ==> r == ("", None)
  {
    if |addresses| == 1 then (IpText(addresses[0].address.ip), addresses[0].sshPort)
    else ("", None)
  }

  const HeaderPrefix := "# infrabase-generated SSH config for "

  /** The header line and the empty line that follows it. */
  function HeaderLines(source: string): seq<string>
  {
    [HeaderPrefix + source, ""]
  }

  /** The four lines of a `Host` block and the empty line that ends it. */
  function BlockLines(owner: string, hostname: string, address: string, port: Port): seq<string>
  {
    ["# " + owner + "'s", "Host " + hostname, "  HostName " + address, "  Port " + Decimal(port as nat), ""]
  }

  predicate HasEndpoint(e: MachineEntry)
  {
    |e.addresses| == 1 && e.addresses[0].sshPort.Some?
  }

  /** The lines a machine contributes: a block exactly when its endpoint has a port. */
  function MachineBlock(e: MachineEntry): (r: seq<string>)
    ensures r != [] <==> HasEndpoint(e)
    ensures HasEndpoint(e) ==> r == BlockLines(e.machine.owner, e.machine.hostname,
                                               IpText(e.addresses[0].address.ip), e.addresses[0].sshPort.value)
  {
    var (address, sshPort) := Endpoint(e.addresses);
    if sshPort.Some? then BlockLines(e.machine.owner, e.machine.hostname, address, sshPort.value) else []
  }

  /** The blocks of all machines, in the order of `data`. */
  function Blocks(data: seq<MachineEntry>): seq<string>
  {
    if data == [] then [] else Blocks(data[..|data| - 1]) + MachineBlock(data[|data| - 1])
  }

  /** The positions of the machines that get a block. */
  function EmittingIndices(data: seq<MachineEntry>): (r: seq<nat>)
    ensures forall j | 0 <= j < |r| :: r[j] < |data|
  {
    if data == [] then []
    else EmittingIndices(data[..|data| - 1]) + if HasEndpoint(data[|data| - 1]) then [|data| - 1] else []
  }

  /**
   * The positions of the machines that get a block are listed in increasing
   * order, and a position is listed exactly when that machine has one address
   * and that address has an SSH port.
   */
  lemma {:induction false} EmittingIndicesSpec(data: seq<MachineEntry>)
    ensures forall j, k | 0 <= j < k < |EmittingIndices(data)| :: EmittingIndices(data)[j] < EmittingIndices(data)[k]
    ensures forall i | 0 <= i < |data| ::
      (|data[i].addresses| == 1 && data[i].addresses[0].sshPort.Some?) <==> i in EmittingIndices(data)
  {
    if data != [] {
      var front := data[..|data| - 1];
      EmittingIndicesSpec(front);
      assert forall i | 0 <= i < |front| :: data[i] == front[i];
    }
  }

  lemma MachineBlockLength(e: MachineEntry)
    ensures |MachineBlock(e)| == if HasEndpoint(e) then 5 else 0
  {
  }

  /** The blocks are five lines for each machine that has an endpoint with a port. */
  lemma {:induction false} BlocksLength(data: seq<MachineEntry>)
    ensures |Blocks(data)| == 5 * |EmittingIndices(data)|
  {
    if data != [] {
      BlocksLength(data[..|data| - 1]);
      MachineBlockLength(data[|data| - 1]);
    }
  }

  lemma AppendAssociative<T>(a: seq<T>, b: seq<T>, c: seq<T>)
    ensures a + b + c == a + (b + c)
  {
  }

  lemma SliceOfConcat<T>(b: seq<T>, c: seq<T>, lo: nat, hi: nat)
    requires lo <= hi <= |b|
    ensures (b + c)[lo..hi] == b[lo..hi]
  {
  }

  lemma SuffixOfConcat<T>(b: seq<T>, c: seq<T>)
    ensures (b + c)[|b|..|b| + |c|] == c
  {
  }

  /** Unfolds the last machine of `data` in both the blocks and the positions. */
  lemma BlocksSnoc(data: seq<MachineEntry>)
    requires data != []
    ensures Blocks(data) == Blocks(data[..|data| - 1]) + MachineBlock(data[|data| - 1])
    ensures EmittingIndices(data)
         == EmittingIndices(data[..|data| - 1]) + if HasEndpoint(data[|data| - 1]) then [|data| - 1] else []
  {
  }

  /** The j-th block belongs to the j-th machine that has an endpoint with a port. */
  lemma {:induction false} BlockAt(data: seq<MachineEntry>, j: nat)
    requires j < |EmittingIndices(data)|
    ensures 5 * j + 5 <= |Blocks(data)|
    ensures Blocks(data)[5 * j..5 * j + 5] == MachineBlock(data[EmittingIndices(data)[j]])
  {
    var front, last := data[..|data| - 1], data[|data| - 1];
    BlocksSnoc(data);
    BlocksLength(front);
    MachineBlockLength(last);
    if j < |EmittingIndices(front)| {
      BlockAt(front, j);
      SliceOfConcat(Blocks(front), MachineBlock(last), 5 * j, 5 * j + 5);
      assert data[EmittingIndices(front)[j]] == front[EmittingIndices(front)[j]];
    } else {
      SuffixOfConcat(Blocks(front), MachineBlock(last));
    }
  }

  /** The configuration for `source`: an error when no machine has that hostname. */
  function SshConfig(data: seq<MachineEntry>, source: string): (r: Result<seq<string>, Error>)
    ensures r.Failure? <==> forall i | 0 <= i < |data| :: data[i].machine.hostname != source
    ensures r.Failure? ==> r.error == MissingSourceMachine(source)
    ensures r.Success? ==> |r.value| >= 2 && r.value[0] == HeaderPrefix + source && r.value[1] == ""
    ensures r.Success? ==> r.value[2..] == Blocks(data)
  {
    match FindSource(data, source)
    case None => Failure(MissingSourceMachine(source))
    case Some(_) => Success(HeaderLines(source) + Blocks(data))
  }

  /** Past the header, the configuration is the same for every source machine that exists. */
  lemma SshConfigIndependentOfSource(data: seq<MachineEntry>, s1: string, s2: string)
    requires SshConfig(data, s1).Success? && SshConfig(data, s2).Success?
    ensures SshConfig(data, s1).value[2..] == SshConfig(data, s2).value[2..]
  {
  }

  lemma BlocksStep(data: seq<MachineEntry>, i: nat)
    requires i < |data|
    ensures Blocks(data[..i + 1]) == Blocks(data[..i]) + MachineBlock(data[i])
  {
    assert data[..i + 1][..i] == data[..i];
  }

  /** Looks up the source machine, then emits the header and one block per machine with an endpoint. */
  method PrintSshConfig(data: seq<MachineEntry>, forMachine: string) returns (r: Result<seq<string>, Error>)
    ensures r == SshConfig(data, forMachine)
  {
    var sourceMachine := FindSource(data, forMachine);
    if sourceMachine.None? {
      return Failure(MissingSourceMachine(forMachine));
    }
    var sourceNetworks := Networks(sourceMachine.value.addresses);

    var output := HeaderLines(forMachine);
    for i := 0 to |data|
      invariant output == HeaderLines(forMachine) + Blocks(data[..i])
    {
      var entry := data[i];
      var (address, sshPort) := Endpoint(entry.addresses);
      BlocksStep(data, i);
      AppendAssociative(HeaderLines(forMachine), Blocks(data[..i]), MachineBlock(entry));
      if sshPort.Some? {
        assert MachineBlock(entry) == BlockLines(entry.machine.owner, entry.machine.hostname, address, sshPort.value);
        output := output + BlockLines(entry.machine.owner, entry.machine.hostname, address, sshPort.value);
      } else {
        assert MachineBlock(entry) == [];
      }
    }
    assert data[..|data|] == data;
    assert output == HeaderLines(forMachine) + Blocks(data);
    return Success(output);
  }

  /** An example machine with one address and a port. */
  const ExampleAlice := MachineEntry(Machine("alice", "ann"),
    [MachineAddress("office", IpNetwork(V4(Ipv4Addr(10, 1, 1, 1)), 24), Some(22))])

  /** An example machine with two addresses. */
  const ExampleBob := MachineEntry(Machine("bob", "bea"),
    [MachineAddress("office", IpNetwork(V4(Ipv4Addr(10, 1, 1, 2)), 24), Some(22)),
     MachineAddress("public", IpNetwork(V4(Ipv4Addr(203, 0, 113, 5)), 32), Some(2222))])

  /** The block of the example machine with one address: the prefix length is dropped. */
  lemma ExampleAliceBlock()
    ensures MachineBlock(ExampleAlice) == ["# ann's", "Host alice", "  HostName 10.1.1.1", "  Port 22", ""]
  {
    assert Decimal(1) == "1" && Decimal(10) == "10" && Decimal(22) == "22";
    assert Ipv4Text(Ipv4Addr(10, 1, 1, 1)) == "10.1.1.1";
    assert "# " + "ann" + "'s" == "# ann's";
    assert "Host " + "alice" == "Host alice";
    assert "  HostName " + "10.1.1.1" == "  HostName 10.1.1.1";
    assert "  Port " + "22" == "  Port 22";
  }

  /** Only the machine with exactly one address gets a block. */
  lemma ExampleBlocks()
    ensures Blocks([ExampleAlice, ExampleBob]) == ["# ann's", "Host alice", "  HostName 10.1.1.1", "  Port 22", ""]
  {
    ExampleAliceBlock();
    assert MachineBlock(ExampleBob) == [];
    assert [ExampleAlice, ExampleBob][..1] == [ExampleAlice] && [ExampleAlice][..0] == [];
    assert Blocks([ExampleAlice]) == MachineBlock(ExampleAlice);
  }
}
