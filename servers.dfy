/**
  `Servers.load_configured_servers` of `servers.py`: the servers of the account
  (already loaded) are narrowed to the configured ones, each of those is
  given its configuration and an empty snapshot list, and then every image is
  appended to the snapshot list of the server it was created from.
*/
module Servers {
  import opened Wrappers
  import opened Snapshots
  import Config

  /** A server of the account. `config` and `snapshots` are filled in here. */
  class Server {
    const id: int
    const name: string
    var config: Option<Config.Server>
    var snapshots: seq<Snapshot>

    constructor (id: int, name: string, config: Option<Config.Server>)
      ensures this.id == id && this.name == name && this.config == config && snapshots == []
    {
      this.id := id;
      this.name := name;
      this.config := config;
      snapshots := [];
    }
  }

  /** The page of servers that `load_servers` returns; `servers` is the list the core narrows in place. */
  class Servers {
    var servers: seq<Server>

    constructor (servers: seq<Server>)
      ensures this.servers == servers
    {
      this.servers := servers;
    }
  }

  // ------------------------------------------------------------ the specification

  /** The servers whose name is configured, in their original order. */
  function Kept(list: seq<Server>, configured: set<string>): seq<Server> {
    if list == [] then []
    else (if list[0].name in configured then [list[0]] else []) + Kept(list[1..], configured)
  }

  /**
    `servers_by_id` as the backward loop leaves it: every id of the list, mapped
    to the first server in list order that has it (the backward loop writes
    that one last).
  */
  function IndexById(list: seq<Server>): map<int, Server> {
    if list == [] then map[] else IndexById(list[1..])[list[0].id := list[0]]
  }

  /** The images created from server `id`, in image-list order. */
  function ImagesFrom(images: seq<Snapshot>, id: int): seq<Snapshot> {
    if images == [] then []
    else ImagesFrom(images[..|images| - 1], id) + (if images[|images| - 1].createdFrom == id then [images[|images| - 1]] else [])
  }

  /** The snapshot list a kept server ends up with: its images if it is the one `servers_by_id` holds for its id, else none. */
  function Attached(list: seq<Server>, images: seq<Snapshot>, srv: Server): seq<Snapshot> {
    if srv.id in IndexById(list) && IndexById(list)[srv.id] == srv then ImagesFrom(images, srv.id) else []
  }

  // ------------------------------------------------------------ the loops

  /**
    Lines 130-148, from the loaded servers on: the configured servers stay, in
    their order, each with its configuration and the images created from it;
    a server that is dropped is left as it was.
  */
  method LoadConfiguredServers(servers: Servers, config: Config.Config, images: seq<Snapshot>)
    modifies servers, servers.servers
    ensures servers.servers == Kept(old(servers.servers), config.servers.Keys)
    ensures forall srv :: srv in servers.servers ==> srv.config == config.OfServer(srv.name)
    ensures forall srv :: srv in servers.servers ==> srv.snapshots == Attached(servers.servers, images, srv)
    ensures forall srv :: srv in old(servers.servers) && srv !in servers.servers ==>
      srv.config == old(srv.config) && srv.snapshots == old(srv.snapshots)
  {
    ghost var orig := servers.servers;
    var byId := KeepConfigured(servers, config);
    forall i | 0 <= i < |servers.servers| ensures servers.servers[i] in orig {
      KeptMembers(orig, config.servers.Keys, servers.servers[i]);
    }
    AttachImages(servers.servers, byId, images);
  }

  /**
    Lines 131-142: the backward loop pops each server without a configuration;
    a kept one gets its configuration, an empty snapshot list and its entry in
    `servers_by_id`. Popping at `i` never disturbs the indices still to come.
  */
  method KeepConfigured(servers: Servers, config: Config.Config) returns (byId: map<int, Server>)
    modifies servers, servers.servers
    ensures servers.servers == Kept(old(servers.servers), config.servers.Keys)
    ensures byId == IndexById(servers.servers)
    ensures forall srv :: srv in servers.servers ==> srv.config == config.OfServer(srv.name) && srv.snapshots == []
    ensures forall srv :: srv in old(servers.servers) && srv !in servers.servers ==>
      srv.config == old(srv.config) && srv.snapshots == old(srv.snapshots)
  {
    ghost var orig := servers.servers;
    ghost var configs := config.servers;
    ghost var suffix: seq<Server> := [];
    ghost var done: set<Server> := {};
    byId := map[];
    for i := |servers.servers| downto 0
      invariant suffix == Kept(orig[i..], configs.Keys)
      invariant servers.servers == orig[..i] + suffix
      invariant byId == IndexById(suffix)
      invariant forall srv :: srv in suffix ==> srv in done
      invariant forall srv :: srv in done ==> srv.name in configs && srv.config == Some(configs[srv.name]) && srv.snapshots == []
      invariant forall srv :: srv in orig && srv.name !in configs ==> srv.config == old(srv.config) && srv.snapshots == old(srv.snapshots)
    {
      SplitAt(servers.servers, orig, i, suffix);
      var srv := servers.servers[i];
      var cfg := config.OfServer(srv.name);
      KeptStep(orig, i, configs.Keys);
      if cfg.Some? {
        srv.config := cfg;
        srv.snapshots := [];
        byId := byId[srv.id := srv];
        IndexByIdCons(srv, suffix);
        suffix := [srv] + suffix;
        done := done + {srv};
      } else {
        servers.servers := servers.servers[..i] + servers.servers[i + 1..];
      }
    }
    assert orig[0..] == orig;
    forall srv | srv in orig && srv !in servers.servers ensures srv.name !in configs {
      KeptMembers(orig, configs.Keys, srv);
    }
  }

  /** Lines 144-146: every image is appended to the list of the server `servers_by_id` holds for its `created_from` id. */
  method AttachImages(kept: seq<Server>, byId: map<int, Server>, images: seq<Snapshot>)
    requires byId == IndexById(kept)
    requires forall srv :: srv in kept ==> srv.snapshots == []
    modifies kept
    ensures forall srv :: srv in kept ==> srv.snapshots == Attached(kept, images, srv) && srv.config == old(srv.config)
  {
    for k := 0 to |images|
      invariant forall srv :: srv in kept ==> srv.snapshots == Attached(kept, images[..k], srv) && srv.config == old(srv.config)
    {
      var sn := images[k];
      AttachStep(kept, images, k);
      if sn.createdFrom in byId {
        IndexByIdIn(kept, sn.createdFrom);
        var target := byId[sn.createdFrom];
        target.snapshots := target.snapshots + [sn];
      }
    }
    assert images[..|images|] == images;
  }

  /** The list during the backward loop: the untouched prefix, then the kept servers of the suffix. */
  lemma SplitAt(list: seq<Server>, orig: seq<Server>, i: nat, rest: seq<Server>)
    requires i < |orig| && list == orig[..i + 1] + rest
    ensures i < |list| && list[i] == orig[i]
    ensures list[..i] + list[i + 1..] == orig[..i] + rest
    ensures list == orig[..i] + ([orig[i]] + rest)
  {
    assert list[..i] == orig[..i];
    assert list[i + 1..] == rest;
  }

  /** One step of the backward loop: the suffix from `i` is the server at `i`, when kept, before the suffix from `i + 1`. */
  lemma KeptStep(orig: seq<Server>, i: nat, configured: set<string>)
    requires i < |orig|
    ensures orig[i].name in configured ==> Kept(orig[i..], configured) == [orig[i]] + Kept(orig[i + 1..], configured)
    ensures orig[i].name !in configured ==> Kept(orig[i..], configured) == Kept(orig[i + 1..], configured)
  {
    assert orig[i..][1..] == orig[i + 1..];
  }

  lemma IndexByIdCons(srv: Server, rest: seq<Server>)
    ensures IndexById([srv] + rest) == IndexById(rest)[srv.id := srv]
  {
    assert ([srv] + rest)[1..] == rest;
  }

  /** The image at `k` joins exactly the list of the server `servers_by_id` holds for its id. */
  lemma AttachStep(kept: seq<Server>, images: seq<Snapshot>, k: nat)
    requires k < |images|
    ensures forall srv :: (Attached(kept, images[..k + 1], srv) ==
      Attached(kept, images[..k], srv)
      + (if images[k].createdFrom == srv.id && srv.id in IndexById(kept) && IndexById(kept)[srv.id] == srv then [images[k]] else []))
  {
    assert images[..k + 1][..k] == images[..k];
  }

  lemma IndexByIdIn(list: seq<Server>, id: int)
    requires id in IndexById(list)
    ensures IndexById(list)[id] in list && IndexById(list)[id].id == id
  {
    IndexByIdValues(list);
  }

  // ------------------------------------------------------------ what the loops mean

  /** A server is kept exactly when its name is configured. */
  lemma {:induction false} KeptMembers(list: seq<Server>, configured: set<string>, srv: Server)
    ensures srv in Kept(list, configured) <==> srv in list && srv.name in configured
    decreases |list|
  {
    if list != [] {
      KeptMembers(list[1..], configured, srv);
      assert list == [list[0]] + list[1..];
    }
  }

  /** Every server of `servers_by_id` is a kept server, stored under its own id, and every kept id is there. */
  lemma {:induction false} IndexByIdValues(list: seq<Server>)
    ensures forall id :: id in IndexById(list) <==> exists srv :: srv in list && srv.id == id
    ensures forall id :: id in IndexById(list) ==> IndexById(list)[id] in list && IndexById(list)[id].id == id
    decreases |list|
  {
    if list != [] {
      IndexByIdValues(list[1..]);
      assert list == [list[0]] + list[1..];
    }
  }

  /** `servers_by_id` holds, for every id, the first server in list order with that id. */
  lemma {:induction false} IndexByIdFirst(list: seq<Server>, j: nat)
    requires j < |list| && forall i :: 0 <= i < j ==> list[i].id != list[j].id
    ensures list[j].id in IndexById(list) && IndexById(list)[list[j].id] == list[j]
    decreases j
  {
    if j > 0 {
      IndexByIdFirst(list[1..], j - 1);
    }
  }

  /** An image belongs to server `id`'s list exactly when it was created from that server. */
  lemma {:induction false} ImagesFromMembers(images: seq<Snapshot>, id: int, x: Snapshot)
    ensures x in ImagesFrom(images, id) <==> x in images && x.createdFrom == id
    decreases |images|
  {
    if images != [] {
      var init := images[..|images| - 1];
      ImagesFromMembers(init, id, x);
      assert images == init + [images[|images| - 1]];
    }
  }

  /** An image whose `created_from` is no kept server's id is attached to no server. */
  lemma UnattachedImage(list: seq<Server>, images: seq<Snapshot>, x: Snapshot)
    requires forall srv :: srv in list ==> srv.id != x.createdFrom
    ensures forall srv :: srv in list ==> x !in Attached(list, images, srv)
  {
    forall srv | srv in list ensures x !in Attached(list, images, srv) {
      ImagesFromMembers(images, srv.id, x);
    }
  }

  /** With unique server ids, every kept server gets exactly the images created from it. */
  lemma AttachedWithUniqueIds(list: seq<Server>, images: seq<Snapshot>, j: nat)
    requires j < |list| && forall a, b :: 0 <= a < b < |list| ==> list[a].id != list[b].id
    ensures Attached(list, images, list[j]) == ImagesFrom(images, list[j].id)
  {
    IndexByIdFirst(list, j);
  }
}
