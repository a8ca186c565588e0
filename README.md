# A Dafny model of pieces of the TrueNAS middleware

This project models four small parts of the middleware daemon and proves
properties of them.

- **The pod service and the follow-tail pod-log event source**
  (`kubernetes_linux/pods.py`).
  - A query filter hides DaemonSet pods unless all pods are requested.
  - `get_logs` builds the keyword arguments of a logs request.
  - The event source validates its arguments and looks up the release's
    namespace. It then opens a log watch with the truthy arguments and
    publishes one `ADDED` event per log line.
  - Each event splits off a leading timestamp when the date parser accepts
    the line's first token, and otherwise carries the whole line.
  - `cancel` stops the watch if there is one; `on_finish` drops it.
- **The registry of ACME DNS authenticators** (`authenticators/factory.py`).
  It is a table from each class's `NAME` to the class. It is filled at import
  time with the Cloudflare, Route 53, shell and Mail-in-a-Box classes. A
  lookup of an unknown name fails with `ENOENT`.
- **The Mail-in-a-Box authenticator** (`authenticators/miab.py`).
  - Credential validation reports each missing field.
  - The credentials are copied from the attributes.
  - The TXT record of the ACME challenge is published with a POST to
    `<server>/admin/dns/custom/_acme-challenge.<domain>/txt`.
  - Any status other than 200 raises a `ValueError` naming the URL, the
    status and the body.
  - Removing the record is the cleanup step.
- **The migration that moves iSCSI authorised networks onto targets**
  (`alembic/versions/22.12/..._iscsi_target_networks.py`).
  - Every target gets a list column that defaults to `[]`.
  - For each target group in turn, the target receives its initiator's
    space-separated network string as a list. `'ALL'` becomes the empty
    list.
  - The initiator column is then dropped.
  - The downgrade does nothing.

Files:

- `wrappers.dfy`: `Option` and `Result`.
- `python_str.dfy`: the Python string operations the core relies on:
  - `str.isspace`, `split()`, `split(maxsplit=1)`, `lstrip` and `join`;
  - `str` and `int` of an integer;
  - `repr` of a string.
- `pods.dfy`, `auth_factory.dfy`, `miab.dfy` and
  `iscsi_target_networks.dfy`: one module per source file.

Objects whose fields the source updates are classes. These are:

- the event source, with its `watch` field;
- the factory, with `_creators`;
- the Mail-in-a-Box authenticator, with its three credentials;
- the migration's tables.

Loops in the source are methods with loop invariants. These are the event
loop, the module-level registration loop and the migration's update loop.
Each method is proved against a function that specifies it. The rest are
functions and lemmas.

Collaborators the model cannot see are inputs:

- the date parser `dateutil.parser.parse`, as a function that gives the
  normalised string or `None` for `TypeError`/`ParserError`;
- the outcome of `chart.release.validate_pod_log_args`;
- the namespace returned by `chart.release.get_instance`;
- the lines the watch yields;
- the HTTP response.

Calls that only act on the outside world are recorded in an effect trace
(`Effect`) or as request values (`HttpRequest`), in the order the source
makes them.

Behaviour of the source worth knowing:

- A blank log line makes `split(maxsplit=1)[0]` raise `IndexError` at
  `pods.py:89`. Nothing catches it, so it ends `run` and the line is not
  published (`Pods.SplitLine`, `RunOutcome.LineFailed`).
- `cancel` calls `watch.stop()` on every call while the watch is set
  (`pods.py:101-102`). Cancelling twice therefore stops the watch twice.
  `on_finish` clears the field (`pods.py:105`), and from then on `cancel`
  stops nothing.
- The docstring at `pods.py:46` allows `null` for `tail_lines`, but its schema
  entry at `pods.py:53` is not nullable. The model's `tailLines` is an integer.

The method `Pods.LifecycleScenario` runs this lifecycle as a client would:
cancel before `run`, `run`, cancel twice, `on_finish`, cancel again. Its
assertions check the effects each step leaves.

## Model

| member | source | states |
|---|---|---|
| `Pods.AnyOfKind` | src/middlewared/middlewared/plugins/kubernetes_linux/pods.py:23-25 | true iff some owner reference has the given kind |
| `Pods.ConditionalFilteringInQuery` | src/middlewared/middlewared/plugins/kubernetes_linux/pods.py:22-25 | keeps a pod iff `retrieve_all_pods` is truthy, the owner references are `None`, or none of them is a DaemonSet |
| `Pods.GetLogs` | src/middlewared/middlewared/plugins/kubernetes_linux/pods.py:27-34 | the logs request carries exactly `timestamps` (True), `tailLines` and `container` with the given values, plus `limitBytes` exactly when it is truthy; pod and namespace are passed through |
| `Pods.WatchSelection` | src/middlewared/middlewared/plugins/kubernetes_linux/pods.py:76-82 | the comprehension is the union, in order, of the entries for container, tail lines, byte limit and pod name, each present only when truthy |
| `Pods.WatchKwargsContents` | src/middlewared/middlewared/plugins/kubernetes_linux/pods.py:74-83 | the watch gets the namespace always, and never `timestamps`. It gets `container`, `tailLines`, `limitBytes` and `pod_name` iff the argument is non-empty, non-zero or not `None`, each with the argument's value |
| `Pods.WatchKwargsUnderSchema` | src/middlewared/middlewared/plugins/kubernetes_linux/pods.py:52-54 | under `Range(min=1)`, the tail depth always reaches the watch, and the byte limit does exactly when one was given |
| `Pods.SplitLine` | src/middlewared/middlewared/plugins/kubernetes_linux/pods.py:89-97 | a line fails (`IndexError`) iff it is all whitespace; otherwise the timestamp is the date parser's answer for the stripped first element of `split(maxsplit=1)`, and when that answer is `None` the data is the whole line |
| `Pods.ParsedLine` | src/middlewared/middlewared/plugins/kubernetes_linux/pods.py:89-95 | for leading space, token, gap and rest: a parsed token gives the parser's string as timestamp and the rest as data (the token itself when there is no rest) |
| `Pods.UnparsedLine` | src/middlewared/middlewared/plugins/kubernetes_linux/pods.py:90-93 | a token the parser rejects leaves the whole original line as data, with timestamp `None` |
| `Pods.SingleTokenLine` | src/middlewared/middlewared/plugins/kubernetes_linux/pods.py:95 | a one-token line that parses has that token as its data, since the last split element is the token |
| `Pods.FirstBlank` | src/middlewared/middlewared/plugins/kubernetes_linux/pods.py:86-89 | the index of the first blank record: all earlier records are non-blank, and the record there is blank |
| `Pods.FirstFailure` | src/middlewared/middlewared/plugins/kubernetes_linux/pods.py:86-97 | the index of the first record the split raises on: all earlier records split, and that one fails |
| `Pods.FirstFailureIsFirstBlank` | src/middlewared/middlewared/plugins/kubernetes_linux/pods.py:89 | under the event loop's split, the first record that raises is exactly the first blank one |
| `Pods.PublishedOnePerRecord` | src/middlewared/middlewared/plugins/kubernetes_linux/pods.py:86-97 | exactly one event per record before the first failure, each the split of that record, in order |
| `Pods.Sends` | src/middlewared/middlewared/plugins/kubernetes_linux/pods.py:97 | one `send_event('ADDED', ...)` per event, in order |
| `Pods.ValidationBeforeWatch` | src/middlewared/middlewared/plugins/kubernetes_linux/pods.py:72-84 | validation is the first effect; a failed validation does nothing else; otherwise the third effect, and only that one, creates the watch with the run's keyword arguments |
| `Pods.RunPublishesEachRecord` | src/middlewared/middlewared/plugins/kubernetes_linux/pods.py:86-97 | a validated run has 3 + (records before the first blank) effects; effect 3+i is the `ADDED` event of record i; the run completes iff no record is blank |
| `Pods.PublishedStep` | src/middlewared/middlewared/plugins/kubernetes_linux/pods.py:86-97 | one loop step: record i raises exactly when it is the first failure; before it, the published event is its split |
| `Pods.PodLogsFollowTailEventSource.constructor` | src/middlewared/middlewared/plugins/kubernetes_linux/pods.py:64-66 | a new event source has no watch and no effects |
| `Pods.PodLogsFollowTailEventSource.Run` | src/middlewared/middlewared/plugins/kubernetes_linux/pods.py:68-97 | appends exactly the run's effects; sets the watch iff validation succeeds; ends as `Completed` or at the first blank line |
| `Pods.PodLogsFollowTailEventSource.Follow` | src/middlewared/middlewared/plugins/kubernetes_linux/pods.py:86-97 | the event loop: appends one send per record up to the first failing one, and reports where it stopped |
| `Pods.PodLogsFollowTailEventSource.Cancel` | src/middlewared/middlewared/plugins/kubernetes_linux/pods.py:99-102 | appends a stop of the watch iff a watch is set; the watch field is kept |
| `Pods.PodLogsFollowTailEventSource.OnFinish` | src/middlewared/middlewared/plugins/kubernetes_linux/pods.py:104-105 | the watch is dropped |
| `PyStr.SplitOnceEmptyIffBlank` | src/middlewared/middlewared/plugins/kubernetes_linux/pods.py:89 | `split(maxsplit=1)` is empty iff the line is all whitespace |
| `PyStr.SplitTokens` | src/middlewared/middlewared/alembic/versions/22.12/2022-06-12_17-50_iscsi_target_networks.py:38 | `split()` yields non-empty tokens without whitespace |
| `PyStr.SplitJoin` | src/middlewared/middlewared/alembic/versions/22.12/2022-06-12_17-50_iscsi_target_networks.py:38 | splitting tokens joined by whitespace gives the tokens back |
| `PyStr.SplitKeepsAllText` | src/middlewared/middlewared/alembic/versions/22.12/2022-06-12_17-50_iscsi_target_networks.py:38 | `split()` loses only whitespace: the tokens concatenated are the string with whitespace removed |
| `PyStr.IntToStringRoundTrip` | src/middlewared/middlewared/plugins/acme_protocol_/authenticators/miab.py:47 | `int(str(n)) == n` for every integer |
| `PyStr.Repr` | src/middlewared/middlewared/plugins/acme_protocol_/authenticators/factory.py:21 | the `!r` form is quoted on both ends |
| `PyStr.ReprOfPlain` | src/middlewared/middlewared/plugins/acme_protocol_/authenticators/factory.py:21 | a string of printable ASCII characters other than quotes and backslash is shown, unescaped, between single quotes |
| `AuthFactory.AuthenticatorFactory.constructor` | src/middlewared/middlewared/plugins/acme_protocol_/authenticators/factory.py:13-14 | a new factory has an empty table |
| `AuthFactory.AuthenticatorFactory.Register` | src/middlewared/middlewared/plugins/acme_protocol_/authenticators/factory.py:16-17 | the class is filed under its `NAME`, replacing any earlier class of that name; every other lookup answers as before |
| `AuthFactory.AuthenticatorFactory.Authenticator` | src/middlewared/middlewared/plugins/acme_protocol_/authenticators/factory.py:19-22 | succeeds iff the name is registered, with the registered class; otherwise fails with `Unable to locate <repr> authenticator.` and `ENOENT` |
| `AuthFactory.AuthenticatorFactory.GetAuthenticators` | src/middlewared/middlewared/plugins/acme_protocol_/authenticators/factory.py:24-25 | the returned table holds a name iff `authenticator` finds it, and gives the same class |
| `AuthFactory.LastNamed` | src/middlewared/middlewared/plugins/acme_protocol_/authenticators/factory.py:28-35 | the position of the last class with a given name, if any |
| `AuthFactory.RegisterAllLookup` | src/middlewared/middlewared/plugins/acme_protocol_/authenticators/factory.py:28-35 | after registering a sequence, a name maps to the last class of that name; other names keep their old entry |
| `AuthFactory.RegisterAllKeys` | src/middlewared/middlewared/plugins/acme_protocol_/authenticators/factory.py:28-35 | the registered names are the old ones plus the names of the classes |
| `AuthFactory.CreateAuthFactory` | src/middlewared/middlewared/plugins/acme_protocol_/authenticators/factory.py:28-35 | the module's factory is a new object holding the four built-in classes registered in order |
| `AuthFactory.BuiltinTable` | src/middlewared/middlewared/plugins/acme_protocol_/authenticators/factory.py:28-35 | the table holds exactly the four names; `'mail in a box'` always maps to the Mail-in-a-Box class; when the four names are distinct, each class is found under its own name |
| `AuthFactory.NotFoundNamesPlainName` | src/middlewared/middlewared/plugins/acme_protocol_/authenticators/factory.py:21 | for a name of printable ASCII characters other than quotes and backslash, the not-found message shows it in single quotes |
| `Miab.MissingErrors` | src/middlewared/middlewared/plugins/acme_protocol_/authenticators/miab.py:32-39 | no more errors than fields checked |
| `Miab.MissingErrorsOncePerField` | src/middlewared/middlewared/plugins/acme_protocol_/authenticators/miab.py:32-39 | with distinct fields, no field is reported twice |
| `Miab.MissingErrorsExact` | src/middlewared/middlewared/plugins/acme_protocol_/authenticators/miab.py:32-39 | a field has a `Should be specified.` error iff it is missing or empty; nothing else is reported |
| `Miab.MissingErrorsInOrder` | src/middlewared/middlewared/plugins/acme_protocol_/authenticators/miab.py:32-39 | the errors come in field order (`server_url`, `username`, `password`) |
| `Miab.IndexOf` | src/middlewared/middlewared/plugins/acme_protocol_/authenticators/miab.py:32-39 | the first position of a field in the field list |
| `Miab.IndexOfTail` | src/middlewared/middlewared/plugins/acme_protocol_/authenticators/miab.py:32-39 | with distinct fields, a field after the first sits one place further in the whole list than in its tail |
| `Miab.CredentialErrors` | src/middlewared/middlewared/plugins/acme_protocol_/authenticators/miab.py:31-40 | the errors for the three credentials, spelled out field by field |
| `Miab.ValidateCredentials` | src/middlewared/middlewared/plugins/acme_protocol_/authenticators/miab.py:31-40 | succeeds iff server URL, username and password are all non-empty; otherwise raises the non-empty list of missing-field errors |
| `Miab.ChallengeUrlRoundTrip` | src/middlewared/middlewared/plugins/acme_protocol_/authenticators/miab.py:43 | the domain can be read back from the challenge URL |
| `Miab.ChallengeUrlInjective` | src/middlewared/middlewared/plugins/acme_protocol_/authenticators/miab.py:43 | distinct domains get distinct challenge URLs on the same server |
| `Miab.CheckStatus` | src/middlewared/middlewared/plugins/acme_protocol_/authenticators/miab.py:46-47 | succeeds iff the status is 200; otherwise a `ValueError` of URL, status and body joined by a bar |
| `Miab.BarSplit` | src/middlewared/middlewared/plugins/acme_protocol_/authenticators/miab.py:47 | a bar-joined message splits back at its first bar when the part before it holds no bar |
| `Miab.IntToStringHasNoBar` | src/middlewared/middlewared/plugins/acme_protocol_/authenticators/miab.py:47 | the status as a string holds no bar |
| `Miab.StatusMessageRoundTrip` | src/middlewared/middlewared/plugins/acme_protocol_/authenticators/miab.py:47 | from the error message of a URL without a bar, both the URL and the status code can be recovered |
| `Miab.MiabAuthenticator.constructor` | src/middlewared/middlewared/plugins/acme_protocol_/authenticators/miab.py:13-22 | a new authenticator holds its attributes and no credentials yet |
| `Miab.MiabAuthenticator.InitializeCredentials` | src/middlewared/middlewared/plugins/acme_protocol_/authenticators/miab.py:24-27 | each credential is the attribute's `get` value, `None` when absent |
| `Miab.MiabAuthenticator.Perform` | src/middlewared/middlewared/plugins/acme_protocol_/authenticators/miab.py:42-47 | without a server URL, fails with `TypeError` and sends nothing. Otherwise it posts the content to the challenge URL with basic auth, and succeeds iff the response is 200 |
| `Miab.MiabAuthenticator.CleanupAsWritten` | src/middlewared/middlewared/plugins/acme_protocol_/authenticators/miab.py:49-52 | as written, cleanup never sends a request: `TypeError` without a server URL, `NameError` for `session` otherwise |
| `Miab.MiabAuthenticator.Cleanup` | src/middlewared/middlewared/plugins/acme_protocol_/authenticators/miab.py:49-52 | corrected: without a server URL, `TypeError`; otherwise a DELETE of the challenge URL with basic auth |
| `Miab.CleanupAsWrittenNeverDeletes` | src/middlewared/middlewared/plugins/acme_protocol_/authenticators/miab.py:52 | with a server URL, `_perform` sends a request but cleanup as written does not, while the corrected cleanup does |
| `Miab.CleanupUndoesPerform` | src/middlewared/middlewared/plugins/acme_protocol_/authenticators/miab.py:42-52 | the corrected cleanup deletes the very URL `_perform` posted to, and that URL names the challenge's domain |
| `IscsiTargetNetworks.AuthNetworkListShape` | src/middlewared/middlewared/alembic/versions/22.12/2022-06-12_17-50_iscsi_target_networks.py:35-38 | the list holds non-empty networks without whitespace; a blank string gives `[]`; apart from `'ALL'`, only whitespace is lost |
| `IscsiTargetNetworks.AuthNetworkListOfJoin` | src/middlewared/middlewared/alembic/versions/22.12/2022-06-12_17-50_iscsi_target_networks.py:38 | space-separated networks come back as the same list, except the single word `ALL` |
| `IscsiTargetNetworks.SplitOfAll` | src/middlewared/middlewared/alembic/versions/22.12/2022-06-12_17-50_iscsi_target_networks.py:38 | `'ALL'.split()` is `['ALL']`, so only the equality test turns it into `[]` |
| `IscsiTargetNetworks.DefaultNetworks` | src/middlewared/middlewared/alembic/versions/22.12/2022-06-12_17-50_iscsi_target_networks.py:22-23 | the new column exists on every target, holding `[]` |
| `IscsiTargetNetworks.LastGroupFor` | src/middlewared/middlewared/alembic/versions/22.12/2022-06-12_17-50_iscsi_target_networks.py:27-40 | the position of the last target group for a target, if any |
| `IscsiTargetNetworks.ApplyGroupsKeys` | src/middlewared/middlewared/alembic/versions/22.12/2022-06-12_17-50_iscsi_target_networks.py:37-40 | the updates add and remove no target rows |
| `IscsiTargetNetworks.ApplyGroupsAt` | src/middlewared/middlewared/alembic/versions/22.12/2022-06-12_17-50_iscsi_target_networks.py:27-40 | each target ends with the networks of the last group's initiator, or keeps its value when no group points at it |
| `IscsiTargetNetworks.Database.constructor` | src/middlewared/middlewared/alembic/versions/22.12/2022-06-12_17-50_iscsi_target_networks.py:21-27 | the tables the migration starts from, with the new column not yet added |
| `IscsiTargetNetworks.Database.Upgrade` | src/middlewared/middlewared/alembic/versions/22.12/2022-06-12_17-50_iscsi_target_networks.py:21-43 | the new column is the groups' updates, applied in fetch order over the default `[]`; the initiator column is gone |
| `IscsiTargetNetworks.Database.Downgrade` | src/middlewared/middlewared/alembic/versions/22.12/2022-06-12_17-50_iscsi_target_networks.py:46-47 | nothing changes |
| `IscsiTargetNetworks.UpgradeResult` | src/middlewared/middlewared/alembic/versions/22.12/2022-06-12_17-50_iscsi_target_networks.py:21-40 | after the upgrade, every target has a list: `[]` if no group points at it, else the networks of the last such group's initiator |

## Left out

- Pods.ConditionalFilteringInQuery: returns the truthiness of the result. Python returns the `retrieve_all_pods` value itself when that value is truthy. A pod with no `ownerReferences` key raises `KeyError` in the source; the model takes the references as an optional list.
- Pods.SplitLine: the date parser is one fixed function for a whole run. `dateutil` fills missing date fields from the current date, so in the source the same token can give different strings at different times. Exceptions from the date parser other than `TypeError` and `ParserError` (which propagate in the source) are not modelled. The parser is a function parameter and its internals are not modelled.
- `Pod.logs`, `Watch`, `watch.watch()`, `watch.stop()` and `middleware.call` do cluster and RPC I/O. They are recorded as effects or taken as inputs. A failure of `chart.release.get_instance`, or of the watch stream itself, is not modelled.
- The async machinery is not modelled: `super().cancel()`, the interruption of a running `run` by `cancel`, and concurrency between subscriptions. Cancel assumes a set `Watch` object is truthy.
- Schema decorators are not modelled. Their defaults are filled in before `run` (`LogArgs`). `Range(min=1)` appears only as the precondition of `Pods.WatchKwargsUnderSchema`. Mail-in-a-Box's `@accepts(SCHEMA)`, with `empty=False`, is not modelled: `Miab.ValidateCredentials` checks the raw dictionary.
- `ValidationErrors` is reduced to a list of (attribute, message) pairs: `check()` raising becomes `Failure` with that list. Attribute-name prefixes are not modelled.
- PyStr.Repr: escapes only backslash, the quote and `\n`, `\r` and `\t`. It does not model the hexadecimal escapes Python uses for other non-printable characters.
- The other three authenticators (Cloudflare, Route 53, shell) are not part of this model beyond their `NAME`, which is a parameter. The `Authenticator` base class is not part of this model either; the constructor only stores the attributes.
- AuthFactory.AuthenticatorFactory.GetAuthenticators: returns the table as a value. In the source it is the live `_creators` dict, so a caller that mutates the result changes the registry; this aliasing is not modelled.
- HTTP is not modelled: `requests.post`/`delete` and `HTTPBasicAuth` become request values, and the response is an input. Network exceptions are not modelled.
- The migration's SQL, DDL (`add_column`, `drop_column`, batch mode) and `json.dumps` are not modelled. The columns are maps from row id to list, and a dropped column is the empty map. Columns the migration does not touch are left out.
- IscsiTargetNetworks.Database.Upgrade: requires every group's initiator row to exist. In the source a missing row makes `dict(None)` raise. An `UPDATE` of a target id with no row changes nothing, as in SQL.

## Findings

| source | as written | input that shows it | evidently intended | confidence | as-written member | corrected member |
|---|---|---|---|---|---|---|
| src/middlewared/middlewared/plugins/acme_protocol_/authenticators/miab.py:52 | `_cleanup` calls `delete` on a name `session` that the module never defines or imports. Every cleanup with a server URL therefore raises `NameError` and leaves the challenge TXT record in place | any authenticator whose `server_url` is set, with any domain | a DELETE (as `requests.delete`) of the same challenge URL that `_perform` posted to, with the same basic auth | high (not executed) | `Miab.MiabAuthenticator.CleanupAsWritten` | `Miab.MiabAuthenticator.Cleanup` |
