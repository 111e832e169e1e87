/**
  The per-server configuration of `config.py`: the optional settings of
  `Config.Defaults`, their merge into each `Config.Server` by `apply_default`,
  the renaming and merging of every server by `Config.__post_init__`, and the
  lookup `of_server`.

  A settings object is a map from attribute to value; an attribute that is
  absent from the map is `None`.
*/
module Config {
  import opened Wrappers
  import Periods

  /** The fields of `Config.Defaults`, in declaration order (there is no `quarter_yearly`). */
  datatype Attr =
    | CreateSnapshot | SnapshotTimeout | SnapshotName | ShutdownAndRestart | ShutdownTimeout | AllowPoweroff
    | Rotate | SlidingPeriods | QuarterHourly | Hourly | Daily | Weekly | Monthly | Yearly

  /** The attributes in the order `__dict__` lists them. */
  const AllAttrs: seq<Attr> := [
    CreateSnapshot, SnapshotTimeout, SnapshotName, ShutdownAndRestart, ShutdownTimeout, AllowPoweroff,
    Rotate, SlidingPeriods, QuarterHourly, Hourly, Daily, Weekly, Monthly, Yearly
  ]

  /** The position of an attribute in `AllAttrs`. */
  function AttrIndex(a: Attr): (i: nat)
    ensures i < |AllAttrs| && AllAttrs[i] == a
  {
    match a
    case CreateSnapshot => 0
    case SnapshotTimeout => 1
    case SnapshotName => 2
    case ShutdownAndRestart => 3
    case ShutdownTimeout => 4
    case AllowPoweroff => 5
    case Rotate => 6
    case SlidingPeriods => 7
    case QuarterHourly => 8
    case Hourly => 9
    case Daily => 10
    case Weekly => 11
    case Monthly => 12
    case Yearly => 13
  }

  /** The Python name of an attribute. */
  function AttrName(a: Attr): string {
    match a
    case CreateSnapshot => "create_snapshot"
    case SnapshotTimeout => "snapshot_timeout"
    case SnapshotName => "snapshot_name"
    case ShutdownAndRestart => "shutdown_and_restart"
    case ShutdownTimeout => "shutdown_timeout"
    case AllowPoweroff => "allow_poweroff"
    case Rotate => "rotate"
    case SlidingPeriods => "sliding_periods"
    case QuarterHourly => "quarter_hourly"
    case Hourly => "hourly"
    case Daily => "daily"
    case Weekly => "weekly"
    case Monthly => "monthly"
    case Yearly => "yearly"
  }

  /** An attribute value: `OptionalBool`, `OptionalInt` or `OptionalStr` once it is not `None`. */
  datatype Value = BoolValue(b: bool) | IntValue(i: int) | StrValue(s: string)

  /** The attributes that are not `None`, with their values. */
  type Settings = map<Attr, Value>

  /** Python's truth value of an optional setting. */
  predicate Truthy(v: Option<Value>) {
    match v
    case None => false
    case Some(BoolValue(b)) => b
    case Some(IntValue(i)) => i != 0
    case Some(StrValue(s)) => s != ""
  }

  /** `getattr(obj, attr)` on a settings object. */
  function Get(s: Settings, a: Attr): Option<Value> {
    if a in s then Some(s[a]) else None
  }

  /** `Config.Defaults`; the core only reads it. */
  datatype Defaults = Defaults(settings: Settings)

  /** `getattr(default, attr, None)`: with no defaults at all every attribute reads as `None`. */
  function DefaultSettings(defaults: Option<Defaults>): Settings {
    if defaults.Some? then defaults.value.settings else map[]
  }

  /**
    What `apply_default` leaves in a server's settings: an attribute the server
    sets keeps its value, one it leaves `None` takes the default's.
  */
  function Merged(own: Settings, defaults: Option<Defaults>): Settings {
    var d := DefaultSettings(defaults);
    map a | a in own.Keys + d.Keys :: if a in own then own[a] else d[a]
  }

  /** The condition under which `apply_default` raises `ValueError`. */
  predicate MissingSnapshotName(s: Settings) {
    Truthy(Get(s, CreateSnapshot)) && !Truthy(Get(s, SnapshotName))
  }

  /** The message of that `ValueError`. */
  function NoSnapshotNameMessage(name: string): string {
    "No snapshot name specified for server [" + name + "]"
  }

  /** The attribute `getattr(config, p.config_name)` reads: none for `quarter_yearly`. */
  function CountAttr(p: Periods.Period): Option<Attr> {
    match p
    case QuarterHourly => Some(QuarterHourly)
    case Hourly => Some(Hourly)
    case Daily => Some(Daily)
    case Weekly => Some(Weekly)
    case Monthly => Some(Monthly)
    case QuarterYearly => None
    case Yearly => Some(Yearly)
  }

  /** `getattr(config, p.config_name)` of one period: the integer count, or `None` when there is no such attribute or it is `None`. */
  function PeriodCount(s: Settings, p: Periods.Period): Option<int> {
    match CountAttr(p)
    case None => None
    case Some(a) => if a in s && s[a].IntValue? then Some(s[a].i) else None
  }

  /** The counts `__main__.py` reads for the rotation; `Rotation.Count` turns an absent one into 0, as `or 0` does. */
  function PeriodCounts(s: Settings): map<Periods.Period, int> {
    map p | p in Periods.AllPeriods && PeriodCount(s, p).Some? :: PeriodCount(s, p).value
  }

  /** `Config.Server`: the settings of one server and the name `__post_init__` gives it. */
  class Server {
    var name: string
    var settings: Settings

    constructor (settings: Settings)
      ensures name == "" && this.settings == settings
    {
      name := "";
      this.settings := settings;
    }

    /**
      Lines 50-56: every attribute that is `None` takes the default's value, then
      a server that creates snapshots without a snapshot name is refused. The
      merge has happened when the error is raised.
    */
    method ApplyDefault(defaults: Option<Defaults>) returns (error: Option<string>)
      modifies this
      ensures name == old(name)
      ensures settings == Merged(old(settings), defaults)
      ensures error.Some? <==> MissingSnapshotName(settings)
      ensures error.Some? ==> error.value == NoSnapshotNameMessage(name)
    {
      ghost var own := settings;
      var d := DefaultSettings(defaults);
      for k := 0 to |AllAttrs|
        invariant name == old(name)
        invariant forall a :: a in settings <==> a in own || (AttrIndex(a) < k && a in d)
        invariant forall a :: a in settings ==> settings[a] == if a in own then own[a] else d[a]
      {
        var attr := AllAttrs[k];
        AttrsDistinct(k);
        if attr !in settings && attr in d {
          settings := settings[attr := d[attr]];
        }
      }
      MergedIsPointwise(own, defaults, settings);
      if MissingSnapshotName(settings) {
        error := Some(NoSnapshotNameMessage(name));
      } else {
        error := None;
      }
    }
  }

  /** Position `k` of `AllAttrs` holds the attribute whose index is `k`, and no other. */
  lemma AttrsDistinct(k: nat)
    requires k < |AllAttrs|
    ensures forall a :: AttrIndex(a) == k <==> a == AllAttrs[k]
  {
  }

  /** Settings that agree with the merge attribute by attribute are the merge. */
  lemma MergedIsPointwise(own: Settings, defaults: Option<Defaults>, s: Settings)
    requires forall a :: a in s <==> a in own || a in DefaultSettings(defaults)
    requires forall a :: a in s ==> s[a] == if a in own then own[a] else DefaultSettings(defaults)[a]
    ensures s == Merged(own, defaults)
  {
  }

  /** `Config`: the defaults and the servers by name; `names` keeps the dictionary's insertion order. */
  class Config {
    var defaults: Option<Defaults>
    var names: seq<string>
    var servers: map<string, Server>

    /** The dictionary's keys, each once, and a separate server object under each. */
    ghost predicate Valid()
      reads this
    {
      && (forall i, j :: 0 <= i < j < |names| ==> names[i] != names[j])
      && (forall n :: n in servers <==> n in names)
      && (forall i, j :: 0 <= i < j < |names| ==> servers[names[i]] != servers[names[j]])
    }

    constructor (defaults: Option<Defaults>, names: seq<string>, servers: map<string, Server>)
      requires forall i, j :: 0 <= i < j < |names| ==> names[i] != names[j]
      requires forall n :: n in servers <==> n in names
      requires forall i, j :: 0 <= i < j < |names| ==> servers[names[i]] != servers[names[j]]
      ensures this.defaults == defaults && this.names == names && this.servers == servers
      ensures Valid()
    {
      this.defaults := defaults;
      this.names := names;
      this.servers := servers;
    }

    /**
      Lines 68-71: in dictionary order each server is named after its key and
      merged with the defaults. The first server that is refused stops the loop
      with its error; the servers after it are untouched.
    */
    method PostInit() returns (error: Option<string>, ghost stop: nat)
      requires Valid()
      modifies servers.Values
      ensures stop <= |names| && (error.None? <==> stop == |names|)
      ensures forall i :: 0 <= i < stop ==>
        && servers[names[i]].name == names[i]
        && servers[names[i]].settings == Merged(old(servers[names[i]].settings), defaults)
        && !MissingSnapshotName(servers[names[i]].settings)
      ensures stop < |names| ==>
        && servers[names[stop]].name == names[stop]
        && servers[names[stop]].settings == Merged(old(servers[names[stop]].settings), defaults)
        && MissingSnapshotName(servers[names[stop]].settings)
        && error == Some(NoSnapshotNameMessage(names[stop]))
      ensures forall i :: stop < i < |names| ==>
        servers[names[i]].name == old(servers[names[i]].name) && servers[names[i]].settings == old(servers[names[i]].settings)
    {
      for k := 0 to |names|
        invariant forall i :: 0 <= i < k ==>
          && servers[names[i]].name == names[i]
          && servers[names[i]].settings == Merged(old(servers[names[i]].settings), defaults)
          && !MissingSnapshotName(servers[names[i]].settings)
        invariant forall i :: k <= i < |names| ==>
          servers[names[i]].name == old(servers[names[i]].name) && servers[names[i]].settings == old(servers[names[i]].settings)
      {
        var server := servers[names[k]];
        server.name := names[k];
        var e := server.ApplyDefault(defaults);
        if e.Some? {
          return e, k;
        }
      }
      return None, |names|;
    }

    /** Lines 193-197: the server configured under `name`, or `None`. */
    function OfServer(name: string): (r: Option<Server>)
      reads this
      ensures r.Some? <==> name in servers
      ensures r.Some? ==> r.value == servers[name]
    {
      if name in servers then Some(servers[name]) else None
    }
  }

  // ------------------------------------------------------------ the merge

  /** An attribute the server sets is left as it is. */
  lemma MergeKeepsSet(own: Settings, defaults: Option<Defaults>, a: Attr)
    requires a in own
    ensures Get(Merged(own, defaults), a) == Get(own, a)
  {
  }

  /** An attribute the server leaves `None` reads as the default's value, `None` included. */
  lemma MergeFillsUnset(own: Settings, defaults: Option<Defaults>, a: Attr)
    requires a !in own
    ensures Get(Merged(own, defaults), a) == Get(DefaultSettings(defaults), a)
  {
  }

  /** Without a `defaults` section the merge changes nothing. */
  lemma MergeWithoutDefaults(own: Settings)
    ensures Merged(own, None) == own
  {
  }

  /** Merging a second time with the same defaults changes nothing. */
  lemma MergeIdempotent(own: Settings, defaults: Option<Defaults>)
    ensures Merged(Merged(own, defaults), defaults) == Merged(own, defaults)
  {
  }

  /** The merged server is the defaults overlaid with the server's own settings, `vars(default) | override`. */
  lemma MergeIsOverlay(own: Settings, defaults: Option<Defaults>)
    ensures Merged(own, defaults) == DefaultSettings(defaults) + own
  {
  }

  /** Whether a server is refused depends only on its two merged settings. */
  lemma RefusedIff(own: Settings, defaults: Option<Defaults>)
    ensures MissingSnapshotName(Merged(own, defaults)) <==>
      var create := if CreateSnapshot in own then Some(own[CreateSnapshot]) else Get(DefaultSettings(defaults), CreateSnapshot);
      var name := if SnapshotName in own then Some(own[SnapshotName]) else Get(DefaultSettings(defaults), SnapshotName);
      Truthy(create) && !Truthy(name)
  {
  }

  // ------------------------------------------------------------ the period counts

  /** `CountAttr` is lookup by name: it finds the attribute named `p.config_name`, and there is none for `quarter_yearly`. */
  lemma CountAttrByName(p: Periods.Period)
    ensures CountAttr(p).Some? ==> AttrName(CountAttr(p).value) == Periods.ConfigName(p)
    ensures CountAttr(p).None? ==> forall a :: AttrName(a) != Periods.ConfigName(p)
  {
    if p == Periods.QuarterYearly {
      forall a ensures AttrName(a) != "quarter_yearly" {
        if a == QuarterHourly {
          assert AttrName(a)[8] != "quarter_yearly"[8];
        }
      }
    }
  }

  /** `Config.Defaults` has no `quarter_yearly` attribute, so that count is always 0. */
  lemma NoQuarterYearlyCount(s: Settings)
    ensures Periods.QuarterYearly !in PeriodCounts(s)
  {
  }

  /** Every other period reads the attribute of its own name, when that holds an integer. */
  lemma PeriodCountAttr(s: Settings, p: Periods.Period, a: Attr)
    requires CountAttr(p) == Some(a)
    ensures p in PeriodCounts(s) <==> a in s && s[a].IntValue?
    ensures p in PeriodCounts(s) ==> PeriodCounts(s)[p] == s[a].i
  {
    assert Periods.AllPeriods[Periods.Index(p)] == p;
  }
}
