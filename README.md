# geth_status collectd plugin — Dafny model

This project models the decision logic of `geth_status.py`, a collectd plugin that reports the
health of a local Ethereum `geth` node. There are two callbacks:

- **The configuration callback (`conf`).** It walks the children of the plugin's configuration
  block and updates three module-level settings: `SERVICE`, `BINARY` and `IPCPATH`. Each key is
  lower-cased and only its first value is read. `service`, `binary` and `ipcpath` each set their
  own setting. Any other key, `ssd` included, is logged and ignored. In the model the settings
  are the fields of class `Plugin`, and `Plugin.Conf` is the loop. Its postcondition ties the new
  settings to the specification function `Configured`, and lemmas prove what `Configured` means:
  last write wins, unknown keys change nothing, and the defaults survive.
- **The read callback (`read_geth_stats`).** It runs once per polling interval. It checks the
  service with `systemctl` (999 if that call raises) and checks that the binary and IPC endpoint
  exist. Only when both exist and the service code is 0 does it query the node console, three
  times in order: peer count, current block, highest block. It derives the sync percentage and
  dispatches five gauges under plugin `geth_status`, in the order service, peers, current,
  highest, sync. `ReadGethStats` models the cycle as a method. The operating system is a
  parameter: `Environment` holds `os.system`, `os.path.exists` and `subprocess.check_output` as
  functions of the command or path, and Python's `float()` is a parameter too. The method returns
  the gauges dispatched, the shell commands run and whether the cycle ran to its end.

The code has no free-space (`ssd_free`) metric, and an `ssd` key is an unknown key. It does not
replace an `undefined` highest block with the chain head. It has no reduced set of -1 gauges.
A cycle CAN dispatch only part of its gauges. When a console query raises, its variable is never bound.
Dispatching that variable later raises, so only the gauges before it go out. The sync guard
`highest != 0 and current != 0` compares bytes with an integer and so always holds. Whether sync
is computed depends only on whether both outputs convert with `float()` and the highest block is
non-zero. A zero divisor raises `ZeroDivisionError`, which is caught like the other exceptions.

## Model

| member | source | states |
|---|---|---|
| `GethStatus.Plugin.constructor` | geth_status.py:16-18 | the settings start as `geth`, `/usr/local/bin/geth`, `/mnt/ssd/datadir/geth.ipc` |
| `GethStatus.Plugin.Conf` | geth_status.py:27-47 | the new settings are `Configured(old settings, children)`; the logged unknown keys are `Ignored(children)`; "plugin ready" is reached exactly when every child has a value |
| `GethStatus.Set` | geth_status.py:35-43 | a recognised key sets exactly its own setting and leaves the other two unchanged |
| `GethStatus.LowerChar` | geth_status.py:33 | key lower-casing: the result is never an upper-case ASCII letter, and characters other than A–Z are kept |
| `GethStatus.Lower` | geth_status.py:33 | the model's ASCII lower-casing of `key_val.key` maps the key character by character, so the lowered key has the key's length |
| `GethStatus.LowerFoldsCase` | geth_status.py:33 | the lowered key holds no upper-case ASCII letter, and each of its characters is the original one or the lower-case partner of an upper-case letter |
| `GethStatus.KeyOf` | geth_status.py:33-43 | a key names a setting exactly when its lower-cased form is `service`, `binary` or `ipcpath`, and then it names that one; otherwise it names none |
| `GethStatus.ApplyWritesNamedSetting` | geth_status.py:34-45 | one child with a value assigns its first value to the setting its key names and leaves the other settings alone; an unknown key changes nothing |
| `GethStatus.KeyIgnoresCase` | geth_status.py:33-43 | a key names the same setting (or none) whatever the case of its ASCII letters |
| `GethStatus.OnlyFirstValueCounts` | geth_status.py:32-34 | wherever a child stands after walked children, its values after the first never affect the settings |
| `GethStatus.OnlyFirstValueLogged` | geth_status.py:32-45 | wherever a child stands after walked children, its values after the first never affect the logged keys |
| `GethStatus.Configured` | geth_status.py:32-45 | after the walk, each setting has either kept its value or holds the first value of a walked child whose key names it |
| `GethStatus.Ignored` | geth_status.py:32-45 | the loop logs at most one unknown key per child |
| `GethStatus.WalkOneChild` | geth_status.py:32-45 | one iteration of the loop: applying the next child, and logging its lower-cased key when it names no setting, carries the walk's settings and log from one child to the next |
| `GethStatus.Processed` | geth_status.py:32-34 | the children walked are the longest prefix whose children all have a value; the next child, if any, has none |
| `GethStatus.MissingValueStopsConf` | geth_status.py:32-34 | a child without a value (where `values[0]` raises) ends the walk: nothing after it is applied or logged |
| `GethStatus.ConfiguredStopsAtProcessed` | geth_status.py:32-34 | the settings depend only on the walked prefix |
| `GethStatus.ConfiguredSnoc` | geth_status.py:32-43 | walking one more child with a value applies that child to the settings reached so far |
| `GethStatus.ConfiguredIsLastWrite` | geth_status.py:32-43 | each setting ends as the first value of the last walked child naming it, or keeps its earlier value if none does |
| `GethStatus.LastWriteOfWalked` | geth_status.py:32-43 | over children that all have a value, the walk agrees with the last-write-wins reference definition `LastWrite` |
| `GethStatus.LastWriteAt` | geth_status.py:35-43 | in the reference definition, the last child naming a setting decides its value |
| `GethStatus.LaterKeyOverrides` | geth_status.py:35-43 | a later child naming a setting overrides every earlier one |
| `GethStatus.UnknownKeysKeepSettings` | geth_status.py:44-45 | children with only unknown keys leave all three settings unchanged, so the defaults survive, and every walked child is logged |
| `GethStatus.SsdKeyIsUnknown` | geth_status.py:44-45 | every key that lower-cases to `ssd` is an unknown key: a configuration naming only it keeps the defaults and logs the key as `ssd` |
| `GethStatus.IgnoredKeysAreUnknown` | geth_status.py:44-45 | every logged key is lower-case and names none of the three settings |
| `GethStatus.ServiceCommand` | geth_status.py:55 | the service check is `systemctl is-active --quiet ` followed by the configured service name |
| `GethStatus.ServiceCode` | geth_status.py:54-58 | the service code is 999 when `os.system` raises, and it is 0 exactly when `systemctl` exited with status 0 |
| `GethStatus.FullPath` | geth_status.py:63 | the console is queried exactly when the binary and the IPC endpoint both exist and `systemctl` exited with status 0 |
| `GethStatus.ConsoleCommand` | geth_status.py:65-73 | a console query starts with the configured binary and ends with the expression it evaluates; its length is that of binary, IPC path and expression plus the fixed ` attach ipc:` and ` --exec ` parts |
| `GethStatus.QueriesAreDistinct` | geth_status.py:65-73 | the three queries (peer count, current block, highest block) are three distinct commands, each run by the configured binary |
| `GethStatus.Answered` | geth_status.py:64-73 | the number of console queries answered before the first failure: all before it succeeded, the one at it failed |
| `GethStatus.ReadGethStats` | geth_status.py:49-106 | dispatch order is service, peers, current, highest, sync, all under plugin `geth_status` of type gauge. The service code is the `os.system` status, or 999 if it raises. Off the gate, no console query runs and the four other gauges are 0. On the gate, queries run in order until one fails, and the cycle stops dispatching at the first unanswered one. Sync is computed (not left at 0) exactly when all three answered, both blocks convert and the highest is non-zero; it is then their percentage |

## Left out

- Running `systemctl`, `geth attach` and the existence checks: they are the `Environment`
  functions, applied to the exact command strings and paths the code builds. The model
  does not capture that these calls can block.
- Python's `float()` on command output is the parameter `toFloat`.
- The value `os.system` returns is passed through unchanged. On POSIX this is the wait status
  rather than the bare exit code, so a non-zero exit becomes a non-zero code either way.
- Floating-point arithmetic and `round(..., 3)`: the sync gauge is `SyncRatio(current, highest)`,
  the unevaluated `round(current / highest * 100, 3)`, over exact reals.
- `collectd.info` / `collectd.warning` logging, except that `Plugin.Conf` returns the unknown keys
  it logs. The transport behind `collectd.Values(...).dispatch()` is also left out: dispatching is
  appending to the returned sequence, so the model does not capture how collectd converts a bytes
  value into a gauge. collectd's Python binding converts each gauge value as a number when it
  dispatches, so console output that is not a number (such as `undefined` for the current block
  on a node that is not syncing) makes `dispatch()` raise and the real cycle stops at that gauge,
  where the model still reports all five gauges and `completed`. That conversion lives in
  collectd, outside `geth_status.py`.
- `GethStatus.LowerChar`, `GethStatus.Lower`: fold only the ASCII letters A–Z, one character for
  one, where Python's `str.lower()` also folds other letters and can lengthen a string. Only
  two non-ASCII characters lower-case to something holding an ASCII letter: the Kelvin sign (U+212A) becomes `k`, and `İ` (U+0130) becomes `i` followed by the
  non-ASCII U+0307. No key name holds a `k`, so a key with a non-ASCII character never
  lower-cases to `service`, `binary` or `ipcpath`, and which setting a key names is unaffected.
  Only the logged text of an unknown key may differ.
- Configuration values are strings. collectd can also hand over numbers and booleans, which the
  code stores unchanged.
- The `init` callback (SIGCHLD reset) and the registration / `SystemExit` block: plugin plumbing.
- The callback's exception itself: where the code raises, the model records how far it got.
  `Plugin.Conf` reports `ready = false`, and `ReadGethStats` reports `completed = false`.
