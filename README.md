# docker-dns-provision, modelled in Dafny

`docker-dns-provision` makes the containers on a host match a desired state that is
published in DNS TXT records. It is keyed by the host's own name. One run works in
three stages:

1. It walks the domain suffixes of the host name, most specific first. It queries
   `prefix.<suffix>` and collects the container names it finds (`containerRecords`).
   Without inheritance it stops at the first suffix that answers. With inheritance it
   queries every suffix and takes the union of all answers.
2. For each declared name it resolves a launch command. It queries
   `name.prefix.<suffix>` and takes the first string of the first suffix that answers
   (`containerCommands`).
3. It converges the Docker runtime (the body of `main`):
   - First it kills and removes every labelled container that is no longer declared.
   - Then it decides, name by name, whether to do nothing, kill and remove, run, or
     kill, remove and run. A container records the base64 of its command in the label
     `docker-dns-provision.command`, and the decision compares that label with the
     base64 of the current command.

The model has six modules, one per file:

- `Wrappers` (`wrappers.dfy`): the `Option` type.
- `Strs` (`strs.dfy`): Go's `strings.Split` and `strings.Join` with a one-character
  separator, and `strings.Trim(s, "\n")`, with their round trips.
- `Base64` (`base64.dfy`): the fingerprint. A command line becomes UTF-8 bytes, as
  Go's `[]byte(string)` holds them. The bytes are then encoded with the alphabet and
  padding of section 4 of RFC 4648. Both encodings have decoders and round-trip
  proofs, so the fingerprint is injective. The test vectors of section 10 of RFC 4648
  are proved.
- `Dns` (`dns.dfy`): the suffix walk. DNS is an oracle `Resolver` from a query name
  to `Failed` or `Found(first, rest)`. Go's resolver reports an error when a name has
  no TXT record, so a successful answer always has a first string. `ContainerRecords`
  is a method with the source's loop and `break`. It returns the set and the names it
  queried, and is proved equal to the pure specification `Declared`.
  `ContainerCommands` is a recursive first-match function.
- `Runtime` (`runtime.dfy`): the Docker runtime as the program sees it.
  - The state maps each container name to its optional label and a running flag.
  - An `up` flag says whether the daemon answers at all.
  - `kill` stops a container. `rm` deletes only a stopped container, which is why the
    program kills first. `run` creates a running, labelled container when the name
    is free.
  - Class `Docker` holds this state and a trace of every `Kill`, `Rm` and `Run` it
    is sent. `List` and `Inspect` produce the text that `docker ps` and
    `docker inspect` print.
- `Reconcile` (`reconcile.dfy`): the pass.
  - Method `Reconcile` follows `main` step by step against a `Docker` object. It is
    proved to emit exactly the trace of the pure function `Pass`: the `Cleanup` of
    the listed names, then one `Step` per declared name, in whatever order the set
    is visited.
  - The per-transition lemmas, the per-name projection `PassProject` and the
    idempotence lemma `PassIdempotent` are stated about `Pass`.

Where the code behaves differently from what its intent suggests, the model follows the code:

- **The listing quirk.** The output of `docker ps` ends in a newline, so
  `strings.Split` yields a trailing empty string. Unless `""` is declared, the cleanup
  loop issues `docker kill ""` and `docker rm ""` on every run whose listing succeeds.
  The model keeps this.
  As a result the idempotence lemma states that a second pass over the same DNS
  answers changes nothing in the runtime, and that its whole trace is
  `[Kill(""), Rm("")]`. It is not the empty trace.
- **Disabled containers.** "Disabled" is the empty string, not a separate value. A
  TXT answer whose first string is empty disables the container just as no answer
  does.
- **Where the walk stops.** The walk stops at the first lookup that does not return an
  error. An answer that succeeds always carries at least one string.
- **Unlabelled containers.** `inspect` succeeds on an existing container that has no
  label and prints an empty line. Such a container is killed, removed and run again
  (`StepReplaced`, `StepReplacedLine`).

## Model

| member | source | states |
|---|---|---|
| `Strs.JoinSplit` | docker-dns-provision.go:152-156 | Joining the labels of a split host name with `.` gives the host name back, so the first suffix is the full name |
| `Strs.SplitJoin` | docker-dns-provision.go:152 | Splitting a join of dot-free labels at `.` gives the labels back, so a host name and its label list determine each other |
| `Strs.TrimLine` | docker-dns-provision.go:120-121 | Trimming newlines from a newline-free label followed by `inspect`'s trailing newline gives the label |
| `Strs.TrimNewlines` | docker-dns-provision.go:121 | The trimmed text is the input with a run of newlines cut from each end, and it neither starts nor ends with a newline |
| `Base64.Fingerprint` | docker-dns-provision.go:93 | The label value is empty exactly for the empty command and never contains a newline |
| `Base64.DecodeUtf8Encode` | docker-dns-provision.go:93 | `[]byte(commandLine)` (UTF-8) decodes back to the command line |
| `Base64.DecodeEncode` | docker-dns-provision.go:93 | Strict RFC 4648 base64 decoding inverts the encoding |
| `Base64.EncodeDecode` | docker-dns-provision.go:93 | Every string that decodes is the canonical encoding of its bytes |
| `Base64.FingerprintInjective` | docker-dns-provision.go:93 | Equal fingerprints imply equal command lines, so the label comparison at line 131 detects every change |
| `Base64.Rfc4648Vectors` | docker-dns-provision.go:93 | The fingerprints of "", f, fo, foo, foob, fooba and foobar are the RFC 4648 section 10 test vectors |
| `Dns.SuffixesOrder` | docker-dns-provision.go:152-156 | A host name with n labels gives exactly n suffixes. The first is the full name, each next one drops the first label, and the last is the last label |
| `Dns.RecordNamesOrder` | docker-dns-provision.go:156-158 | A host with n labels gives n queries: `prefix.hostname` first, then each one drops the previous query's first host label, down to `prefix.<last label>` |
| `Dns.CommandNamesOrder` | docker-dns-provision.go:188-190 | A host with n labels gives n queries: `containerName.prefix.hostname` first, then each one drops the previous query's first host label, down to `containerName.prefix.<last label>` |
| `Dns.FirstHit` | docker-dns-provision.go:160-171 | The first successful position: its lookup succeeds and every earlier one failed, or there is none and every lookup failed |
| `Dns.AddRecords` | docker-dns-provision.go:165-167 | Adding an answer's strings gives the old set plus exactly those strings |
| `Dns.ContainerRecords` | docker-dns-provision.go:147-176 | The result is the declared set. With inheritance every suffix is queried in order. Without it, the queries stop right after the first success, or cover all suffixes when none succeeds |
| `Dns.DeclaredAllFailed` | docker-dns-provision.go:160-162 | Failed lookups contribute nothing: when all fail the declared set is empty, in both modes |
| `Dns.GatheredMembership` | docker-dns-provision.go:165-167 | A string is gathered exactly when some successful answer carries it |
| `Dns.DeclaredInherited` | docker-dns-provision.go:149-173 | With inheritance a name is declared if and only if some successful answer lists it |
| `Dns.FirstHitDependsOnReached` | docker-dns-provision.go:168-171 | The first success depends only on the answers before it, so no suffix after it is consulted |
| `Dns.DeclaredFirstMatchReached` | docker-dns-provision.go:163-171 | Without inheritance, answers after the first success do not change the declared set |
| `Dns.FirstRecord` | docker-dns-provision.go:186-202 | The first string of the first successful answer, or "" when every lookup fails |
| `Dns.ContainerCommands` | docker-dns-provision.go:182-203 | The command is `txt[0]` of the first suffix whose lookup succeeds, or "" when none does |
| `Dns.CommandDependsOnReached` | docker-dns-provision.go:192-198 | The command ignores every suffix after the first success |
| `Runtime.Apply` | docker-dns-provision.go:82-83 | A runtime command changes only the entry of the name it is about, and never whether the runtime answers |
| `Runtime.ApplyAllEntry` | docker-dns-provision.go:88-142 | A name's entry after a trace depends only on the commands about that name |
| `Runtime.KillThenRm` | docker-dns-provision.go:82-83 | `kill` then `rm` deletes whatever the name held, running or not |
| `Runtime.KillRmRun` | docker-dns-provision.go:133-136 | `kill`, `rm`, `run` leaves a running container that carries the new label |
| `Runtime.ListingLines` | docker-dns-provision.go:76 | Splitting the `ps` output at newlines gives the listed names plus one trailing "" |
| `Runtime.Docker.List` | docker-dns-provision.go:71-73 | The listing fails exactly when the runtime does not answer. Otherwise it prints each labelled container once, one per line |
| `Runtime.Docker.Inspect` | docker-dns-provision.go:97-99 | `inspect` succeeds exactly for an existing container and prints its label followed by a newline |
| `Runtime.Docker.Kill` | docker-dns-provision.go:82 | Appends `Kill(name)` to the trace and stops the container |
| `Runtime.Docker.Rm` | docker-dns-provision.go:83 | Appends `Rm(name)` to the trace and removes a stopped container |
| `Runtime.Docker.Run` | docker-dns-provision.go:125 | Appends `Run(name, label, args)` to the trace and creates the container when the name is free |
| `Reconcile.Step` | docker-dns-provision.go:95-138 | Every action is about the container's own name. Every `rm` directly follows a `kill`. A `run` only happens for a non-empty command that splits, with the fingerprint label and `run -d --name n --label docker-dns-provision.command=<fp>` followed by the words |
| `Reconcile.Cleanup` | docker-dns-provision.go:77-85 | Cleanup never runs anything. It only touches listed names that are not declared |
| `Reconcile.KillAndRemove` | docker-dns-provision.go:82-83 | Issues `Kill(n)` then `Rm(n)` and applies both to the runtime |
| `Reconcile.ConvergeOne` | docker-dns-provision.go:88-141 | The loop body for one name emits exactly `Step` on the state before it |
| `Reconcile.RemoveUndeclared` | docker-dns-provision.go:77-85 | The loop over the listing emits exactly `Cleanup` of the listed names |
| `Reconcile.CleanupListed` | docker-dns-provision.go:71-86 | The listing is split as `ListingOf` says, and nothing is cleaned up when it fails |
| `Reconcile.ConvergeDeclared` | docker-dns-provision.go:88-142 | Each declared name is visited exactly once, in some order, and the trace is the `Steps` for that order |
| `Reconcile.Reconcile` | docker-dns-provision.go:65-142 | One run computes the declared set, then cleans up, then converges each declared name. Its trace and final state are exactly those of `Pass` |
| `Reconcile.PassPhases` | docker-dns-provision.go:69-142 | The cleanup phase comes first and the declared phase runs on the state it leaves |
| `Reconcile.StepLocal` | docker-dns-provision.go:97-119 | A decision depends only on whether the runtime answers and on that name's entry |
| `Reconcile.CleanupProject` | docker-dns-provision.go:77-85 | In the cleanup, a listed undeclared name gets exactly `kill` then `rm`. Any other name gets nothing |
| `Reconcile.StepsProject` | docker-dns-provision.go:88-142 | In the declared phase, a name gets exactly its own decision, taken on its entry before the phase |
| `Reconcile.PassProject` | docker-dns-provision.go:69-142 | For any visiting order: a declared name gets its decision on its entry before the pass. A listed undeclared name gets `kill` then `rm` and never `run`. Any other name gets nothing |
| `Reconcile.StepDisabled` | docker-dns-provision.go:95-106 | Empty command: `kill`, `rm` if inspect succeeds, otherwise nothing, and never `run` |
| `Reconcile.StepUnsplittable` | docker-dns-provision.go:108-112 | A non-empty command that fails to split gives no action for that container |
| `Reconcile.StepNew` | docker-dns-provision.go:113-128 | When inspect fails: exactly one `run`, with the fingerprint label and the launch arguments |
| `Reconcile.StepUnchanged` | docker-dns-provision.go:117-139 | A container whose label, trimmed of newlines at both ends, equals the fingerprint gets no action |
| `Reconcile.StepUnchangedExact` | docker-dns-provision.go:117-139 | In particular a container labelled with exactly the command's fingerprint gets no action |
| `Reconcile.StepReplaced` | docker-dns-provision.go:117-136 | A container whose label, trimmed of newlines at both ends, is missing or differs from the fingerprint gets `kill`, `rm`, `run`, in that order |
| `Reconcile.StepReplacedLine` | docker-dns-provision.go:117-136 | In particular a container with no label, or with a one-line label other than the fingerprint, gets `kill`, `rm`, `run` |
| `Reconcile.StepChangedConfig` | docker-dns-provision.go:131-136 | A container launched for `c1` and now declared with a different `c2` gets `kill`, `rm`, then `run` with the fingerprint of `c2` |
| `Reconcile.ListingFailedNoCleanup` | docker-dns-provision.go:73-75 | When the listing fails no cleanup action is issued, and because inspect fails too, the pass issues only runs |
| `Reconcile.MostSpecificDecides` | docker-dns-provision.go:163-171 | Without inheritance, an answer at the full host name alone decides the declared set, and a command answer there alone decides the command |
| `Reconcile.ExampleScenario` | docker-dns-provision.go:65-128 | For any host and prefix (e.g. host `web1.prod.example.com`, prefix `containers.docker`) whose `prefix.hostname` answers `nginx-edge`, inheritance off and no such container yet, the declared set is exactly `nginx-edge`; when `nginx-edge.prefix.hostname` answers `-p 80:80 nginx:1.25`, that is its command and its decision is one run labelled with the fingerprint and launched with `-p`, `80:80`, `nginx:1.25` |
| `Reconcile.StepConverges` | docker-dns-provision.go:95-138 | After its decision a name is gone (empty command), unchanged (command does not split), or present with a label that inspect reports as the fingerprint |
| `Reconcile.StepStable` | docker-dns-provision.go:95-138 | Deciding again on the entry a decision left gives no action |
| `Reconcile.PassClears` | docker-dns-provision.go:77-85 | After a pass no undeclared container carries the label |
| `Reconcile.PassSettles` | docker-dns-provision.go:88-142 | After a pass every valid declared name needs no further action |
| `Reconcile.PassConverges` | docker-dns-provision.go:65-142 | A pass on an answering, well-formed runtime whose declared names are valid leaves it converged |
| `Reconcile.ConvergedPassQuiet` | docker-dns-provision.go:69-142 | On a converged runtime a pass changes nothing. Its only actions are `kill ""` and `rm ""` |
| `Reconcile.PassIdempotent` | docker-dns-provision.go:65-142 | A second pass over the same DNS answers leaves the runtime unchanged. Its trace is exactly `[Kill(""), Rm("")]` |

## Left out

- Flag parsing (kingpin, `flag.Set` of the log level) is not modelled. The prefix, host name and inheritance switch are the fields of `Config`.
- `exec.LookPath` and `os.Hostname` and their fatal exits are not modelled. The model starts with a host name in hand.
- `net.LookupTXT` is not modelled. It becomes the `Resolver` oracle, and the model does not tell a missing record from a transport error.
- `shellquote.Split` is not modelled. It is the uninterpreted parameter `Splitter`, which returns `None` for malformed quoting.
- `base64.StdEncoding` is not modelled as a library. The model has its own RFC 4648 section 4 encoder in its place.
- Running the `docker` binary is replaced by the `Docker` class and its action trace.
- Logging is not modelled. It has no effect on behaviour.
- Go strings may hold invalid UTF-8, but Dafny strings hold Unicode scalar values. `Utf8` therefore models `[]byte(string)` only for well-formed text.
- Runtime.Docker.List: the listing order is a ghost out-parameter. The runtime picks it, and the model does not fix which order.
- Runtime.Docker.Run: a run on a free name always succeeds, and a run on a taken name changes nothing. Failures such as a missing image are not modelled; they would leave the name absent until the next pass.
- Runtime.State: one `up` flag decides whether listing, inspect and the state-changing commands succeed. A daemon that fails one command but answers the others is not modelled.
- Reconcile.ConvergeDeclared: Go visits map keys in random order. The model picks an arbitrary order, and every lemma holds for every order.
- Reconcile.PassIdempotent: the second pass is not the empty trace. It is `[Kill(""), Rm("")]`, because of the trailing empty line of the listing.
- Reconcile.PassIdempotent: declared names must be valid Docker names (`[a-zA-Z0-9][a-zA-Z0-9_.-]+`), and the runtime must answer. A declared name the runtime refuses is never created, so the program issues its `run` again on every pass, and the second pass is then not `[Kill(""), Rm("")]`.
- Runtime.ValidName: Docker also accepts a name with one leading `/` and strips it. The model treats such a name as invalid, so a `run` for it changes nothing, whereas Docker would create the container without the slash.
- Runtime.Docker.Inspect: `docker inspect` is called without `--type container`, so it also succeeds for an image with the container's name (for example `redis` once that image is pulled), printing whatever label value the image carries. The model's runtime holds only containers, so it does not capture this. For such a name with no container, the program issues `kill` and `rm`, which both fail, before its `run`, where `StepNew` states a lone `run`. A disabled name with such an image gets `kill` and `rm` on every pass, which the second-pass trace of `PassIdempotent` does not include.
- Concurrent runs against the same daemon are not modelled. The program assumes one run at a time.
