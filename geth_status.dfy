/**
 * A model of the collectd plugin `geth_status`: the configuration callback, which folds the
 * configuration children into three module-level settings, and the read callback, which probes
 * the geth service and node console once per polling interval and dispatches five gauges.
 *
 * The operating system (systemctl, the filesystem, `geth attach`) and Python's `float` are
 * parameters; collectd's logging and transport are left out, and dispatching a gauge is
 * appending it to the sequence the read callback returns.
 */
module GethStatus {

  datatype Option<T> = None | Some(value: T)

  // ---------------------------------------------------------------------------------------
  // Configuration
  // ---------------------------------------------------------------------------------------

  /** One child of the plugin's configuration block: its key and its list of values. */
  datatype ConfigItem = ConfigItem(key: string, values: seq<string>)

  /** The three module-level settings `SERVICE`, `BINARY` and `IPCPATH`. */
  datatype Settings = Settings(service: string, binary: string, ipcPath: string)

  /** The setting a recognised configuration key addresses. */
  datatype Setting = Service | Binary | IpcPath

  /** The settings the module starts with. */
  function Defaults(): Settings {
    Settings("geth", "/usr/local/bin/geth", "/mnt/ssd/datadir/geth.ipc")
  }

  /** Lower-cases one ASCII letter; every other character is kept. */
  function LowerChar(c: char): (d: char)
    ensures !('A' <= d <= 'Z')
    ensures !('A' <= c <= 'Z') ==> d == c
    ensures 'A' <= c <= 'Z' ==> d as int - c as int == 'a' as int - 'A' as int
  {
    if 'A' <= c <= 'Z' then (c as int - 'A' as int + 'a' as int) as char else c
  }

  /** Upper-cases one ASCII letter; every other character is kept. */
  function UpperChar(c: char): char {
    if 'a' <= c <= 'z' then (c as int - 'a' as int + 'A' as int) as char else c
  }

  /** `str.lower()` on the ASCII letters of a key. */
  function Lower(s: string): (t: string)
    ensures |t| == |s|
  {
    seq(|s|, i requires 0 <= i < |s| => LowerChar(s[i]))
  }

  /** Lower-casing leaves no upper-case ASCII letter, and each character is either kept or is
      the lower-case partner of an upper-case one. */
  lemma LowerFoldsCase(s: string)
    ensures forall i :: 0 <= i < |s| ==> !('A' <= Lower(s)[i] <= 'Z')
    ensures forall i :: 0 <= i < |s| ==>
              Lower(s)[i] == s[i] || ('A' <= s[i] <= 'Z' && UpperChar(Lower(s)[i]) == s[i])
  {
  }

  /** `str.upper()` on the ASCII letters of a key. */
  function Upper(s: string): string {
    seq(|s|, i requires 0 <= i < |s| => UpperChar(s[i]))
  }

  /** The configuration key that names a setting. */
  function KeyName(k: Setting): string {
    match k
    case Service => "service"
    case Binary => "binary"
    case IpcPath => "ipcpath"
  }

  /** Which setting a configuration key names once lower-cased, if any: a key names a setting
      exactly when its lower-cased form is that setting's key name. */
  function KeyOf(key: string): (k: Option<Setting>)
    ensures k.Some? ==> Lower(key) == KeyName(k.value)
    ensures k.None? ==> forall j: Setting :: Lower(key) != KeyName(j)
  {
    var lowered := Lower(key);
    if lowered == "service" then Some(Service)
    else if lowered == "binary" then Some(Binary)
    else if lowered == "ipcpath" then Some(IpcPath)
    else None
  }

  function Get(s: Settings, k: Setting): string {
    match k
    case Service => s.service
    case Binary => s.binary
    case IpcPath => s.ipcPath
  }

  /** Assigning one setting changes that setting and no other. */
  function Set(s: Settings, k: Setting, v: string): (r: Settings)
    ensures Get(r, k) == v
    ensures forall j: Setting :: j != k ==> Get(r, j) == Get(s, j)
  {
    match k
    case Service => s.(service := v)
    case Binary => s.(binary := v)
    case IpcPath => s.(ipcPath := v)
  }

  /** The effect of one configuration child that has a value: its first value is assigned to
      the setting its key names, and an unknown key changes nothing. */
  function Apply(s: Settings, item: ConfigItem): Settings
    requires item.values != []
  {
    match KeyOf(item.key)
    case Some(k) => Set(s, k, item.values[0])
    case None => s
  }

  /** One child sets the setting its key names to its first value and leaves every other
      setting alone. */
  lemma ApplyWritesNamedSetting(s: Settings, item: ConfigItem)
    requires item.values != []
    ensures forall k: Setting ::
              Get(Apply(s, item), k) == (if KeyOf(item.key) == Some(k) then item.values[0] else Get(s, k))
  {
  }

  /** The children the configuration callback gets through: it stops at the first child without
      a value, where reading the first value raises. */
  function Processed(items: seq<ConfigItem>): (p: seq<ConfigItem>)
    ensures p <= items
    ensures forall i :: 0 <= i < |p| ==> p[i].values != []
    ensures |p| < |items| ==> items[|p|].values == []
  {
    if items == [] || items[0].values == [] then []
    else [items[0]] + Processed(items[1..])
  }

  /** The settings after the configuration callback has walked `items` starting from `s`: each
      setting either keeps its value or takes the first value of a walked child naming it. */
  function Configured(s: Settings, items: seq<ConfigItem>): (r: Settings)
    ensures forall k: Setting :: Get(r, k) == Get(s, k) || exists i :: WritesAt(items, i, k, Get(r, k))
    decreases |items|
  {
    if items == [] || items[0].values == [] then s
    else
      ApplyWritesNamedSetting(s, items[0]);
      var r := Configured(Apply(s, items[0]), items[1..]);
      assert forall k: Setting, i :: WritesAt(items[1..], i, k, Get(r, k)) ==> WritesAt(items, i + 1, k, Get(r, k));
      assert forall k: Setting :: Get(r, k) == Get(Apply(s, items[0]), k) ==>
               Get(r, k) == Get(s, k) || WritesAt(items, 0, k, Get(r, k));
      r
  }

  /** Child `i` is walked, names setting `k` and has `v` as its first value. */
  predicate WritesAt(items: seq<ConfigItem>, i: int, k: Setting, v: string) {
    0 <= i < |items| && (forall j :: 0 <= j <= i ==> items[j].values != [])
    && KeyOf(items[i].key) == Some(k) && items[i].values[0] == v
  }

  /** The lower-cased unknown keys the configuration callback logs, in order. */
  function Ignored(items: seq<ConfigItem>): (r: seq<string>)
    ensures |r| <= |items|
  {
    if items == [] || items[0].values == [] then []
    else (if KeyOf(items[0].key).None? then [Lower(items[0].key)] else []) + Ignored(items[1..])
  }

  /** Reference definition of a setting after configuration: the first value of the LAST child
      that names it, or `fallback` when no child does. */
  function LastWrite(items: seq<ConfigItem>, k: Setting, fallback: string): string
    requires forall i :: 0 <= i < |items| ==> items[i].values != []
  {
    if items == [] then fallback
    else if KeyOf(items[|items| - 1].key) == Some(k) then items[|items| - 1].values[0]
    else LastWrite(items[..|items| - 1], k, fallback)
  }

  /** Every child has at least one value. */
  predicate AllHaveValues(items: seq<ConfigItem>) {
    forall j :: 0 <= j < |items| ==> items[j].values != []
  }

  /** Whether every child has a value is decided child by child. */
  lemma AllHaveValuesStep(items: seq<ConfigItem>)
    requires items != []
    ensures AllHaveValues(items) <==> items[0].values != [] && AllHaveValues(items[1..])
  {
    if items[0].values != [] && AllHaveValues(items[1..]) {
      forall j | 0 <= j < |items|
        ensures items[j].values != []
      {
        if j > 0 {
          assert items[j] == items[1..][j - 1];
        }
      }
    }
  }

  /** The module-level settings, updated in place by the configuration callback. */
  class Plugin {
    var service: string
    var binary: string
    var ipcPath: string

    /** The module is loaded with the default settings. */
    constructor ()
      ensures Current() == Defaults()
    {
      service := "geth";
      binary := "/usr/local/bin/geth";
      ipcPath := "/mnt/ssd/datadir/geth.ipc";
    }

    function Current(): Settings
      reads this
    {
      Settings(service, binary, ipcPath)
    }

    /** The configuration callback. Returns the unknown keys it logs and whether it got through
        every child (and so logs that the plugin is ready). */
    method Conf(children: seq<ConfigItem>) returns (ignored: seq<string>, ready: bool)
      modifies this
      ensures Current() == Configured(old(Current()), children)
      ensures ignored == Ignored(children)
      ensures ready <==> AllHaveValues(children)
    {
      ignored := [];
      var rest := children;
      while rest != []
        invariant Configured(old(Current()), children) == Configured(Current(), rest)
        invariant Ignored(children) == ignored + Ignored(rest)
        invariant AllHaveValues(children) == AllHaveValues(rest)
      {
        var keyVal := rest[0];
        var key := Lower(keyVal.key);
        if keyVal.values == [] {
          // `key_val.values[0]` raises: the remaining children are not looked at.
          ready := false;
          return;
        }
        var val := keyVal.values[0];
        AllHaveValuesStep(rest);
        WalkOneChild(old(Current()), children, Current(), ignored, rest);
        if key == "service" {
          service := val;
        } else if key == "binary" {
          binary := val;
        } else if key == "ipcpath" {
          ipcPath := val;
        } else {
          ignored := ignored + [key];
        }
        rest := rest[1..];
      }
      ready := true;
    }
  }

  /** One step of the walk: applying the next child and logging its key if unknown carries the
      two loop invariants of `Conf` from `items` to `items[1..]`. */
  lemma WalkOneChild(s0: Settings, children: seq<ConfigItem>, before: Settings,
                     logged: seq<string>, items: seq<ConfigItem>)
    requires items != [] && items[0].values != []
    requires Configured(s0, children) == Configured(before, items)
    requires Ignored(children) == logged + Ignored(items)
    ensures Configured(s0, children) == Configured(Apply(before, items[0]), items[1..])
    ensures KeyOf(items[0].key).Some? ==> Ignored(children) == logged + Ignored(items[1..])
    ensures KeyOf(items[0].key).None? ==>
              Ignored(children) == (logged + [Lower(items[0].key)]) + Ignored(items[1..])
  {
    assert Configured(before, items) == Configured(Apply(before, items[0]), items[1..]);
    var tail := Ignored(items[1..]);
    if KeyOf(items[0].key).None? {
      assert logged + ([Lower(items[0].key)] + tail) == (logged + [Lower(items[0].key)]) + tail;
    } else {
      assert Ignored(items) == tail;
    }
  }

  // ---------------------------------------------------------------------------------------
  // Properties of the configuration callback
  // ---------------------------------------------------------------------------------------

  /** Keys are matched without regard to the case of their ASCII letters. */
  lemma KeyIgnoresCase(key: string)
    ensures KeyOf(Upper(key)) == KeyOf(key)
    ensures KeyOf(Lower(key)) == KeyOf(key)
  {
    assert Lower(Upper(key)) == Lower(key) by {
      forall i | 0 <= i < |key|
        ensures Lower(Upper(key))[i] == Lower(key)[i]
      {
      }
    }
    assert Lower(Lower(key)) == Lower(key) by {
      forall i | 0 <= i < |key|
        ensures Lower(Lower(key))[i] == Lower(key)[i]
      {
      }
    }
  }

  /** Only the first value of a child matters; the others are never read: wherever the child
      stands among walked children, dropping its later values leaves the settings unchanged. */
  lemma {:induction false} OnlyFirstValueCounts(s: Settings, pre: seq<ConfigItem>, key: string, v: string,
                                                rest: seq<string>, post: seq<ConfigItem>)
    requires AllHaveValues(pre)
    ensures Configured(s, pre + [ConfigItem(key, [v] + rest)] + post)
         == Configured(s, pre + [ConfigItem(key, [v])] + post)
    decreases |pre|
  {
    var long, short := ConfigItem(key, [v] + rest), ConfigItem(key, [v]);
    if pre == [] {
      assert pre + [long] + post == [long] + post;
      assert pre + [short] + post == [short] + post;
      assert ([long] + post)[1..] == post == ([short] + post)[1..];
    } else {
      OnlyFirstValueCounts(Apply(s, pre[0]), pre[1..], key, v, rest, post);
      assert (pre + [long] + post)[1..] == pre[1..] + [long] + post;
      assert (pre + [short] + post)[1..] == pre[1..] + [short] + post;
    }
  }

  /** Nor do a child's later values change what is logged. */
  lemma {:induction false} OnlyFirstValueLogged(pre: seq<ConfigItem>, key: string, v: string,
                                                rest: seq<string>, post: seq<ConfigItem>)
    requires AllHaveValues(pre)
    ensures Ignored(pre + [ConfigItem(key, [v] + rest)] + post)
         == Ignored(pre + [ConfigItem(key, [v])] + post)
    decreases |pre|
  {
    var long, short := ConfigItem(key, [v] + rest), ConfigItem(key, [v]);
    if pre == [] {
      assert pre + [long] + post == [long] + post;
      assert pre + [short] + post == [short] + post;
      assert ([long] + post)[1..] == post == ([short] + post)[1..];
    } else {
      OnlyFirstValueLogged(pre[1..], key, v, rest, post);
      assert (pre + [long] + post)[1..] == pre[1..] + [long] + post;
      assert (pre + [short] + post)[1..] == pre[1..] + [short] + post;
    }
  }

  /** The walk ends where the first child without a value stands. */
  lemma {:induction false} ConfiguredStopsAtProcessed(s: Settings, items: seq<ConfigItem>)
    ensures Configured(s, items) == Configured(s, Processed(items))
    decreases |items|
  {
    if items != [] && items[0].values != [] {
      ConfiguredStopsAtProcessed(Apply(s, items[0]), items[1..]);
      assert Processed(items)[1..] == Processed(items[1..]);
    }
  }

  /** Walking one more child applies it to the settings reached so far. */
  lemma {:induction false} ConfiguredSnoc(s: Settings, items: seq<ConfigItem>, x: ConfigItem)
    requires forall i :: 0 <= i < |items| ==> items[i].values != []
    requires x.values != []
    ensures Configured(s, items + [x]) == Apply(Configured(s, items), x)
    decreases |items|
  {
    if items == [] {
      assert [x][1..] == [];
    } else {
      assert (items + [x])[1..] == items[1..] + [x];
      ConfiguredSnoc(Apply(s, items[0]), items[1..], x);
    }
  }

  /** Last write wins: each setting ends up as the first value of the last child that names it
      among the children walked, and keeps its earlier value when no such child exists. */
  lemma {:induction false} ConfiguredIsLastWrite(s: Settings, items: seq<ConfigItem>, k: Setting)
    ensures Get(Configured(s, items), k) == LastWrite(Processed(items), k, Get(s, k))
  {
    ConfiguredStopsAtProcessed(s, items);
    LastWriteOfWalked(s, Processed(items), k);
  }

  lemma {:induction false} LastWriteOfWalked(s: Settings, p: seq<ConfigItem>, k: Setting)
    requires forall i :: 0 <= i < |p| ==> p[i].values != []
    ensures Get(Configured(s, p), k) == LastWrite(p, k, Get(s, k))
    decreases |p|
  {
    if p != [] {
      var q, x := p[..|p| - 1], p[|p| - 1];
      assert p == q + [x];
      ConfiguredSnoc(s, q, x);
      LastWriteOfWalked(s, q, k);
    }
  }

  /** A later child naming a setting overrides every earlier one: if child `i` names `k` and no
      walked child after it does, `k` ends up as child `i`'s first value. */
  lemma {:induction false} LaterKeyOverrides(s: Settings, items: seq<ConfigItem>, i: nat, k: Setting)
    requires i < |Processed(items)|
    requires KeyOf(items[i].key) == Some(k)
    requires forall j :: i < j < |Processed(items)| ==> KeyOf(items[j].key) != Some(k)
    ensures Get(Configured(s, items), k) == items[i].values[0]
  {
    ConfiguredIsLastWrite(s, items, k);
    LastWriteAt(Processed(items), i, k, Get(s, k));
  }

  lemma {:induction false} LastWriteAt(p: seq<ConfigItem>, i: nat, k: Setting, fallback: string)
    requires forall j :: 0 <= j < |p| ==> p[j].values != []
    requires i < |p| && KeyOf(p[i].key) == Some(k)
    requires forall j :: i < j < |p| ==> KeyOf(p[j].key) != Some(k)
    ensures LastWrite(p, k, fallback) == p[i].values[0]
    decreases |p|
  {
    if i < |p| - 1 {
      var q := p[..|p| - 1];
      LastWriteAt(q, i, k, fallback);
    }
  }

  /** Children whose keys are all unknown (`ssd` among them) leave every setting as it was; in
      particular the defaults survive a configuration without a recognised key. */
  lemma {:induction false} UnknownKeysKeepSettings(s: Settings, items: seq<ConfigItem>)
    requires forall i :: 0 <= i < |items| ==> KeyOf(items[i].key).None?
    ensures Configured(s, items) == s
    ensures |Ignored(items)| == |Processed(items)|
    decreases |items|
  {
    if items != [] && items[0].values != [] {
      UnknownKeysKeepSettings(s, items[1..]);
    }
  }

  /** `ssd`, in any case, is an unknown key: a configuration that names only it keeps the
      default settings and logs the key as `ssd`. */
  lemma SsdKeyIsUnknown(key: string, v: string)
    requires Lower(key) == "ssd"
    ensures KeyOf(key) == None
    ensures Configured(Defaults(), [ConfigItem(key, [v])]) == Defaults()
    ensures Ignored([ConfigItem(key, [v])]) == ["ssd"]
  {
  }

  /** A child without a value ends the walk: nothing after it is applied or logged. */
  lemma {:induction false} MissingValueStopsConf(s: Settings, pre: seq<ConfigItem>, x: ConfigItem, post: seq<ConfigItem>)
    requires x.values == []
    ensures Configured(s, pre + [x] + post) == Configured(s, pre)
    ensures Ignored(pre + [x] + post) == Ignored(pre)
    decreases |pre|
  {
    if pre == [] {
      assert (pre + [x] + post)[0] == x;
    } else {
      assert (pre + [x] + post)[1..] == pre[1..] + [x] + post;
      if pre[0].values != [] {
        MissingValueStopsConf(Apply(s, pre[0]), pre[1..], x, post);
        MissingValueStopsConf(s, pre[1..], x, post);
      }
    }
  }

  /** Every key the callback logs is lower-case and names none of the three settings. */
  lemma {:induction false} IgnoredKeysAreUnknown(items: seq<ConfigItem>)
    ensures forall j :: 0 <= j < |Ignored(items)| ==>
              Lower(Ignored(items)[j]) == Ignored(items)[j] && KeyOf(Ignored(items)[j]).None?
    decreases |items|
  {
    if items != [] && items[0].values != [] {
      IgnoredKeysAreUnknown(items[1..]);
      KeyIgnoresCase(items[0].key);
    }
  }

  // ---------------------------------------------------------------------------------------
  // One polling cycle
  // ---------------------------------------------------------------------------------------

  newtype byte = x: int | 0 <= x < 256

  /** What `subprocess.check_output` returns: the raw bytes the command printed. */
  type Bytes = seq<byte>

  /** `os.system(...)`: the status it returns, or an exception. */
  datatype SystemOutcome = Exited(status: int) | SystemRaised

  /** `subprocess.check_output(..., shell=True)`: the output, or an exception (non-zero exit,
      command not found, ...). */
  datatype ConsoleOutcome = Output(text: Bytes) | CommandFailed

  /** The operating system as the read callback sees it during one cycle. */
  datatype Environment = Environment(
    system: string -> SystemOutcome,
    pathExists: string -> bool,
    checkOutput: string -> ConsoleOutcome)

  /** The Python values the read callback binds and dispatches. `SyncRatio(c, h)` stands for
      `round(c / h * 100, 3)`, the sync percentage, left unevaluated. */
  datatype PyValue = Int(i: int) | Raw(b: Bytes) | SyncRatio(current: real, highest: real)

  /** One `collectd.Values(...).dispatch()`. */
  datatype Gauge = Gauge(plugin: string, typeInstance: string, kind: string, value: PyValue)

  /** The order in which the read callback dispatches its gauges. */
  const MetricOrder: seq<string> := ["service", "peers", "current", "highest", "sync"]

  function Values(instance: string, value: PyValue): Gauge {
    Gauge("geth_status", instance, "gauge", value)
  }

  /** The service check run through `os.system`: `systemctl is-active --quiet` followed by the
      configured service name. */
  function ServiceCommand(service: string): (c: string)
    ensures "systemctl is-active --quiet " <= c
    ensures |c| == 28 + |service| && c[28..] == service
  {
    "systemctl is-active --quiet " + service
  }

  /** A one-shot `geth attach` over the IPC endpoint evaluating `expression`: the command runs
      the configured binary and ends with the expression, so different expressions give
      different commands. */
  function ConsoleCommand(cfg: Settings, expression: string): (c: string)
    ensures |c| == |cfg.binary| + |cfg.ipcPath| + |expression| + 20
    ensures cfg.binary <= c
    ensures c[|c| - |expression|..] == expression
  {
    cfg.binary + " attach ipc:" + cfg.ipcPath + " --exec " + expression
  }

  /** The three console queries, in the order the read callback issues them. */
  function Queries(cfg: Settings): seq<string> {
    [ConsoleCommand(cfg, "net.peerCount"),
     ConsoleCommand(cfg, "eth.syncing.currentBlock"),
     ConsoleCommand(cfg, "eth.syncing.highestBlock")]
  }

  /** The three queries are three distinct commands, each run by the configured binary, so the
      environment answers each of them on its own. */
  lemma QueriesAreDistinct(cfg: Settings)
    ensures |Queries(cfg)| == 3
    ensures forall i :: 0 <= i < 3 ==> cfg.binary <= Queries(cfg)[i]
    ensures forall i, j :: 0 <= i < j < 3 ==> Queries(cfg)[i] != Queries(cfg)[j]
  {
  }

  /** What each console query would yield in this environment. */
  function Outcomes(cfg: Settings, env: Environment): seq<ConsoleOutcome> {
    var q := Queries(cfg);
    [env.checkOutput(q[0]), env.checkOutput(q[1]), env.checkOutput(q[2])]
  }

  /** How many queries, from the first, succeed before one fails. */
  function Answered(outs: seq<ConsoleOutcome>): (n: nat)
    ensures n <= |outs|
    ensures forall i :: 0 <= i < n ==> outs[i].Output?
    ensures n < |outs| ==> outs[n].CommandFailed?
  {
    if outs == [] || outs[0].CommandFailed? then 0 else 1 + Answered(outs[1..])
  }

  /** The service status code: what `os.system` returns, or 999 when it raises. It is 0 exactly
      when `systemctl` exited with status 0, so a raising call never reads as "active". */
  function ServiceCode(o: SystemOutcome): (code: int)
    ensures o.SystemRaised? ==> code == 999
    ensures code == 0 <==> o == Exited(0)
  {
    match o
    case Exited(status) => status
    case SystemRaised => 999
  }

  /** The gate of the full probing path: binary and IPC endpoint exist and the service is up. */
  predicate FullPath(cfg: Settings, env: Environment): (open: bool)
    ensures open <==> env.pathExists(cfg.binary) && env.pathExists(cfg.ipcPath)
                      && env.system(ServiceCommand(cfg.service)) == Exited(0)
  {
    env.pathExists(cfg.binary) && env.pathExists(cfg.ipcPath)
    && ServiceCode(env.system(ServiceCommand(cfg.service))) == 0
  }

  function Min(a: int, b: int): int { if a <= b then a else b }

  /**
   * The read callback: one polling cycle over the settings `cfg`, in environment `env`, with
   * `toFloat` for Python's `float()` on command output (None where it raises). Returns the
   * gauges dispatched, in order, the shell commands run, in order, and whether the cycle ran to
   * its end (a console query that raised leaves its variable unbound, and dispatching that
   * variable raises in turn).
   */
  method ReadGethStats(cfg: Settings, env: Environment, toFloat: Bytes -> Option<real>)
    returns (sent: seq<Gauge>, commands: seq<string>, completed: bool)
    // Every gauge goes to plugin geth_status as a gauge, in the fixed order, the service first.
    ensures 1 <= |sent| <= 5
    ensures forall i :: 0 <= i < |sent| ==>
              sent[i].plugin == "geth_status" && sent[i].kind == "gauge"
              && sent[i].typeInstance == MetricOrder[i]
    ensures completed <==> |sent| == 5
    // The service code is the status os.system returns, or exactly 999 when it raises.
    ensures env.system(ServiceCommand(cfg.service)).SystemRaised? ==> sent[0].value == Int(999)
    ensures env.system(ServiceCommand(cfg.service)).Exited? ==>
              sent[0].value == Int(env.system(ServiceCommand(cfg.service)).status)
    // Off the full path no console query runs and the other four gauges are all 0.
    ensures !FullPath(cfg, env) ==>
              commands == [ServiceCommand(cfg.service)] && completed
              && forall i :: 1 <= i < 5 ==> sent[i].value == Int(0)
    // On the full path the queries run in order until one fails; the gauges of the answered
    // ones carry their raw output, and the cycle ends at the first unanswered one.
    ensures FullPath(cfg, env) ==>
              var n := Answered(Outcomes(cfg, env));
              && commands == [ServiceCommand(cfg.service)] + Queries(cfg)[..Min(n + 1, 3)]
              && |sent| == (if n == 3 then 5 else n + 1)
              && forall i :: 1 <= i <= n ==> sent[i].value == Raw(Outcomes(cfg, env)[i - 1].text)
    // The sync gauge is computed (it is left at 0 otherwise) exactly when every query was
    // answered, both block numbers convert, and the highest is not zero; it is then their
    // rounded percentage.
    ensures completed ==>
              (sent[4].value != Int(0) <==>
                 FullPath(cfg, env) && Answered(Outcomes(cfg, env)) == 3
                 && toFloat(Outcomes(cfg, env)[1].text).Some?
                 && toFloat(Outcomes(cfg, env)[2].text).Some?
                 && toFloat(Outcomes(cfg, env)[2].text).value != 0.0)
    ensures completed && sent[4].value != Int(0) ==>
              sent[4].value == SyncRatio(toFloat(Outcomes(cfg, env)[1].text).value,
                                         toFloat(Outcomes(cfg, env)[2].text).value)
  {
    var serviceCommand := ServiceCommand(cfg.service);
    commands := [serviceCommand];
    var gethService: int;
    match env.system(serviceCommand) {
      case Exited(status) => gethService := status;
      case SystemRaised => gethService := 999;
    }

    var syncPercent := Int(0);
    var binary := env.pathExists(cfg.binary);
    var ipc := env.pathExists(cfg.ipcPath);
    // None stands for a local that was never bound.
    var peers: Option<PyValue> := None;
    var current: Option<PyValue> := None;
    var highest: Option<PyValue> := None;
    if binary && ipc && gethService == 0 {
      var queries := Queries(cfg);
      ghost var outs := Outcomes(cfg, env);
      ghost var answered := Answered(outs);
      assert outs == [env.checkOutput(queries[0]), env.checkOutput(queries[1]), env.checkOutput(queries[2])];
      var out := env.checkOutput(queries[0]);
      commands := commands + [queries[0]];
      if out.Output? {
        peers := Some(Raw(out.text));
        out := env.checkOutput(queries[1]);
        commands := commands + [queries[1]];
        if out.Output? {
          current := Some(Raw(out.text));
          out := env.checkOutput(queries[2]);
          commands := commands + [queries[2]];
          if out.Output? {
            highest := Some(Raw(out.text));
            // Bytes never compare equal to the integer 0, so this guard always holds.
            if highest.value != Int(0) && current.value != Int(0) {
              var c := toFloat(current.value.b);
              var h := toFloat(highest.value.b);
              // A failed conversion or a zero divisor raises, and sync_percent stays 0.
              if c.Some? && h.Some? && h.value != 0.0 {
                syncPercent := SyncRatio(c.value, h.value);
              }
            }
          } else {
            // The highest-block query raised: exactly two queries were answered.
            assert Outcomes(cfg, env)[2].CommandFailed?;
            assert answered == 2;
          }
        }
      }
    } else {
      peers := Some(Int(0));
      current := Some(Int(0));
      highest := Some(Int(0));
    }

    sent := [Values("service", Int(gethService))];
    completed := false;
    if peers.None? { return; }
    sent := sent + [Values("peers", peers.value)];
    if current.None? { return; }
    sent := sent + [Values("current", current.value)];
    if highest.None? { return; }
    sent := sent + [Values("highest", highest.value)];
    sent := sent + [Values("sync", syncPercent)];
    completed := true;
  }
}
