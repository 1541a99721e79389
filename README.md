# dockerbackup, modelled in Dafny

dockerbackup is a command-line tool. It backs up a Docker container into a
gzipped tar archive and restores it. A backup holds:

- the container's `docker inspect` output (`container.json`);
- its exported filesystem (`filesystem.tar`);
- `metadata.json`;
- one archive per named volume and bind mount under `volumes/`;
- the configs of its volumes and networks.

A compose project is backed up service by service, and restored in the
order its `depends_on` graph gives.

This project models the decision logic of the tool. It leaves out the
Docker, file-system and process calls around that logic, and proves what
the logic guarantees:

- **Start order** (`order.dfy`, `order_props.dfy`). Kahn's algorithm as the
  source runs it: in-degree map, adjacency lists, and a queue re-sorted
  after every push. It is proved equal to a ghost specification `KahnFrom`
  that always starts the least ready service. The result lists every
  declared service exactly once. It respects every dependency exactly when
  the dependencies can be met at all; otherwise it is plain sorted order.
- **Archives** (`archive.dfy`, `paths.dfy`). `filepath.Clean`, `Join`, `Rel`
  and `Base` are modelled on lists of path elements. Proved:
  - how `CreateArchive` names entries, and what it leaves written when
    the context is cancelled or a file cannot be read, opened or copied;
  - `secureJoin`'s containment property;
  - the extraction and listing loops;
  - `tarTypeToString`;
  - the round trip "archive a directory, extract it, get the same tree
    back".
- **Backup engine** (`engine_names.dfy`, `engine_validate.dfy`,
  `engine_backup.dfy`):
  - `safeName`, `stringReplaceAll` and `indexOf`;
  - `Validate`'s required-entry check;
  - which mounts get an archive, and under what name;
  - the compose backup's de-duplication of volumes and networks.
- **Single-container restore** (`restore_network.dfy`, `restore_host.dfy`,
  `restore_spec.dfy`):
  - network renaming, parent override and bridge fallback;
  - endpoint IPAM clearing with its sticky conflict flag;
  - the in-place host-IP filter of port bindings, on an array;
  - the safe-mode drops;
  - bind relocation;
  - the forced or preferred bind IP;
  - reading container.json;
  - choosing the image;
  - restoring the mount data until the first failure;
  - the container name, and the `docker rm -f` of ReplaceExisting;
  - spec-based creation and its `docker create` fallback;
  - starting the container and waiting for health.
- **Compose restore** (`compose_restore.dfy`):
  - the service order and its directory fallback;
  - the options each service is restored with;
  - the reported id;
  - the start commands.
- **Host extraction of bind-mount archives** (`host_extract.dfy`). Modelled
  as written, and with the containment check it lacks (see Findings).
- **Small parsers and values** (`docker_types.dfy`, `docker_client.dfy`,
  `options.dfy`, `errors.dfy`):
  - `ParseContainerInfo`;
  - the CLI client's output parsers and argument lists;
  - `BackupOptionsBuilder` as a class with a mutable `options` field;
  - the error types and their messages.

Shared modules: `wrappers.dfy` (Option, Result), `strs.dfy` (the parts of
Go's `strings` used) and `lex.dfy` (Go's byte-wise string order and
`sort.Strings`).

Go's map iteration order is unspecified. Wherever the source loops over a
map, the model picks the next key with `:|`, and contracts state only what
holds for every order. The one exception is IPAM clearing, which really
depends on the order; its contract is stated over the order that was
visited.

Inputs taken as parameters:

- the host's IP addresses;
- the conflict test for a static IPv4 address;
- the address of a network interface;
- which paths exist;
- which files are present in the extracted backup;
- the outcomes of Docker calls;
- the decoded JSON or YAML values.

`RestoreOptions` has the union of the fields declared in
pkg/backup/options.go and those engine.go reads.

## Model

| member | source | states |
|---|---|---|
| Order.ParseProjectName | pkg/compose/order.go:67-73 | "" when the file does not decode, else the top-level `name` |
| Order.OrderFromComposeYAML | pkg/compose/order.go:18-65 | an undecodable file gives (nil, nil); `names` lists each declared service once; `order` equals the start-order specification (Kahn's order, or sorted names when Kahn stops short) |
| Order.ServiceNames | pkg/compose/order.go:23-25 | the names list each declared service exactly once, in any order |
| Order.BuildGraph | pkg/compose/order.go:27-37 | afterwards each service's adjacency list holds exactly the services that depend on it, once each, and its in-degree is the number of its dependencies |
| Order.InitInDegrees | pkg/compose/order.go:28-31 | every declared service, and nothing else, has in-degree 0 |
| Order.AddDependencies | pkg/compose/order.go:33-36 | `n` joins the waiting list of each of its dependencies, and its in-degree grows by their number |
| Order.ZeroInDegree | pkg/compose/order.go:39-44 | the initial queue holds, once each, exactly the services with in-degree 0 |
| Order.SortedSeed | pkg/compose/order.go:45 | the sorted initial queue is the set of ready services in ascending order |
| Order.Drain | pkg/compose/order.go:46-57 | the queue loop produces exactly KahnFrom(g, []) |
| Order.StartNext | pkg/compose/order.go:47-49 | the popped head is the least ready service, and starting it is KahnFrom's next step |
| Order.ReleaseWaiting | pkg/compose/order.go:50-56 | after the inner loop the queue is again the sorted set of ready services, and in-degrees count the unstarted dependencies |
| Order.ReleaseOne | pkg/compose/order.go:51-55 | a waiting service loses one owed dependency, and joins the re-sorted queue exactly when it owes none |
| Order.ReadyAfterStart | pkg/compose/order.go:50-56 | starting `cur` makes ready only services on its waiting list |
| Order.WaitingList | pkg/compose/order.go:34 | a waiting list names, once each, the declared services that depend on the service |
| Order.KahnStep | pkg/compose/order.go:46-49 | starting the least ready service continues KahnFrom unchanged |
| Order.DrainEnd | pkg/compose/order.go:46 | when the queue is empty nothing is ready, and KahnFrom stops there |
| OrderProperties.KahnFromSteps | pkg/compose/order.go:46-57 | KahnFrom extends the started prefix, keeps every service after its dependencies, stops only when nothing is ready, and each step takes the least ready service |
| OrderProperties.KahnCompleteIffSchedulable | pkg/compose/order.go:58 | Kahn's order reaches every service exactly when some order of all services respects all dependencies |
| OrderProperties.EveryScheduledServiceStarts | pkg/compose/order.go:46-57 | when nothing is ready, every prefix of a dependency-respecting order has already started |
| OrderProperties.StartOrderEnumerates | pkg/compose/order.go:58-64 | the start order lists every declared service exactly once, in both branches |
| OrderProperties.StartOrderRespectsDependencies | pkg/compose/order.go:46-57 | when the dependencies can be met, the order is Kahn's, each service comes after its dependencies, and each position holds the least service ready there |
| OrderProperties.UnschedulableFallsBack | pkg/compose/order.go:58-63 | when they cannot be met, the order is the names in ascending order |
| OrderProperties.BlockedDependency | pkg/compose/order.go:33-36 | no duplicate-free order containing `n` respects a self-dependency, or a dependency that is not in the order |
| OrderProperties.SelfDependencyFallsBack | pkg/compose/order.go:58-63 | a service depending on itself forces the alphabetical fallback |
| OrderProperties.UndeclaredDependencyFallsBack | pkg/compose/order.go:58-63 | a dependency on an undeclared service forces the alphabetical fallback |
| OrderProperties.ChainExample | pkg/compose/order.go:39-57 | web needs api, api needs db: the order is [db, api, web] |
| OrderProperties.OnlyOrder | pkg/compose/order.go:39-57 | for that chain, [db, api, web] is the only dependency-respecting order |
| OrderProperties.CycleExample | pkg/compose/order.go:58-63 | web and api waiting on each other: the order is [api, web] |
| OrderProperties.MutualWaitUnschedulable | pkg/compose/order.go:58-63 | two services that depend on each other cannot be ordered |
| OrderProperties.AscendingPair | pkg/compose/order.go:62 | two distinct names sort into their string order |
| Lex.Sort | pkg/compose/order.go:45 | sort.Strings: the result is sorted and a permutation of the input |
| Lex.SortedUnique | pkg/compose/order.go:54 | two sorted permutations of one multiset are equal, so re-sorting is deterministic |
| Lex.SortEnumeration | pkg/compose/order.go:60-62 | sorting any duplicate-free enumeration of a set gives that set in ascending order |
| Lex.Ascending | pkg/compose/order.go:62 | the ascending enumeration of a set is sorted, duplicate-free and has exactly the set's elements |
| Lex.LeTotal | pkg/compose/order.go:45 | Go's string order is total |
| Lex.LeTrans | pkg/compose/order.go:45 | Go's string order is transitive |
| Lex.LeAntisym | pkg/compose/order.go:45 | Go's string order is antisymmetric |
| Paths.Clean | pkg/archive/tar.go:274 | filepath.Clean never yields "" |
| Paths.CleanIdempotent | pkg/archive/tar.go:274 | cleaning twice is cleaning once, and the cleaned path parses like the original |
| Paths.CleanDot | pkg/archive/tar.go:275 | Clean gives "." exactly for names that resolve to no element |
| Paths.CleanEq | pkg/archive/tar.go:274 | two names clean alike exactly when they resolve to the same elements |
| Paths.JoinPath | pkg/archive/tar.go:278 | Join is "" exactly when both parts are "" |
| Paths.JoinPlain | pkg/archive/tar.go:278 | joining a plain relative name appends its elements |
| Paths.Base | pkg/archive/tar.go:87 | Base is never "", and is "/" or a single element |
| Paths.CommonPrefix | pkg/archive/tar.go:280 | the longest common element prefix used by Rel |
| Paths.RelInside | pkg/archive/tar.go:280-284 | a Rel answer that does not start with ".." means the target is the base or below it |
| Paths.RelOfInside | pkg/archive/tar.go:280-284 | the same on cleaned paths |
| Paths.RelBelow | pkg/backup/engine.go:949 | Rel of a plain name joined onto a directory gives the name back |
| Paths.ParseRender | pkg/archive/tar.go:274 | Clean's output reads back as the same path |
| Paths.TrailingSlash | pkg/archive/tar.go:114 | a trailing "/" changes nothing after cleaning |
| Archive.Lstat | pkg/archive/tar.go:80 | Lstat succeeds exactly for a non-empty path that exists |
| Archive.Walk | pkg/archive/tar.go:89 | WalkDir visits the root first, then each entry's subtree |
| Archive.InfoHeader | pkg/archive/tar.go:139 | the header carries the name it is given |
| Archive.WalkHeadersAt | pkg/archive/tar.go:89-118 | one header per visited node, in walk order |
| Archive.RootName | pkg/archive/tar.go:85-88 | DestPath, else Base(Path); never empty |
| Archive.TarWriter.constructor | pkg/archive/tar.go:63 | a new writer has written nothing |
| Archive.TarWriter.WriteHeader | pkg/archive/tar.go:115 | appends the header to what was written |
| Archive.TarWriter.Write | pkg/archive/tar.go:156 | copied bytes go to the entry whose header was written last; nothing else changes |
| Archive.Context.Done | pkg/archive/tar.go:75-79 | each poll is counted, and reports done from poll cancelAt on |
| Archive.CreateArchive | pkg/archive/tar.go:46-72 | no sources is an error before anything is written; otherwise the written entries and the error are those of running every source's polls in order, numbered from the context's count, up to and including the first failing one |
| Archive.AddSourceToTar | pkg/archive/tar.go:74-126 | appends what running the source's polls writes and returns its error: cancellation or an Lstat error before anything is written, the walk of a directory, or the one entry of anything else; on success the context was polled once per step |
| Archive.WalkSource | pkg/archive/tar.go:84-118 | a directory source after its own poll: appends what its walk's polls write and returns their first error |
| Archive.WriteWalk | pkg/archive/tar.go:89-118 | the callback runs at each visited node in walk order until one returns an error; written entries and the error are those of the run of those visits |
| Archive.WriteVisit | pkg/archive/tar.go:89-117 | one callback: cancellation or an Lstat error writes nothing; a directory writes rootName/rel + "/" and then reports an unreadable directory; anything else is written as a file or symlink |
| Archive.WriteFileOrSymlinkToTar | pkg/archive/tar.go:128-158 | a symlink whose target cannot be read writes nothing; otherwise one header named nameInTar, and a file whose open or copy fails keeps that header with the bytes copied before the failure, and returns the error |
| Archive.RunStopsAtFirstFailure | pkg/archive/tar.go:66-70 | a failed run is a clean prefix followed by exactly one failing step, whose error and output end the run |
| Archive.RunOk | pkg/archive/tar.go:66-70 | a run succeeds exactly when none of its steps fails |
| Archive.RunAllFail | pkg/archive/tar.go:75-79 | steps that all fail with one error write nothing and return that error |
| Archive.CanceledRunFails | pkg/archive/tar.go:75-79 | a context done at a poll within the run makes the run fail, and with no earlier failure the error is the context's and nothing is written from that poll on |
| Archive.OpenFailureLeavesHeader | pkg/archive/tar.go:147-153 | a file that cannot be opened leaves its header, declaring the full size, with no bytes |
| Archive.VisitRunsClean | pkg/archive/tar.go:98-117 | without faults a visit writes exactly the header the naming scheme gives it |
| Archive.WalkRunsClean | pkg/archive/tar.go:89-118 | without faults or cancellation a walk writes one header per visited node, in walk order |
| Archive.SourceRunsClean | pkg/archive/tar.go:74-126 | without faults or cancellation one source writes exactly its headers, or fails with its Lstat error |
| Archive.RunsClean | pkg/archive/tar.go:46-72 | without faults or cancellation creation succeeds exactly when every source can be read, writing every source's headers in order; otherwise the first unreadable source's error follows the headers of the sources before it |
| Archive.RunsAsSourceHeaders | pkg/archive/tar.go:66-70 | for any step semantics under which each source writes its headers or fails, the run of all sources agrees with AllHeaders and fails at the first failing source |
| Archive.ListArchive | pkg/archive/tar.go:229-265 | success exactly when every step reads a header; then one entry per header, in order, with path, size, mode and type copied; otherwise an error after a prefix of good reads |
| Archive.ExtractArchive | pkg/archive/tar.go:160-227 | success exactly when no step fails; then destDir is made, followed by each entry's actions in order; otherwise the first failing step stops extraction |
| Archive.ExtractEntry | pkg/archive/tar.go:177-224 | one step: reports exactly that step's failure, or adds that entry's actions |
| Archive.ExtractedStep | pkg/archive/tar.go:190-224 | extracting one more good entry appends its actions |
| Archive.SecureJoinContained | pkg/archive/tar.go:272-288 | every path secureJoin accepts is baseDir or lies below it |
| Archive.SecureJoinAccepts | pkg/archive/tar.go:272-288 | a plain relative name is accepted exactly when its first element does not start with "..", and lands at baseDir/elements |
| Archive.SecureJoinDot | pkg/archive/tar.go:275-277 | names that clean to "." map to baseDir |
| Archive.LeadingSlashDropped | pkg/archive/tar.go:274 | an absolute name is treated as the same name relative to baseDir |
| Archive.DotDotPrefixedNameRefused | pkg/archive/tar.go:284 | the ".." test is on characters, so "..foo" is refused too |
| Archive.ExtractContained | pkg/archive/tar.go:190-224 | extraction names no path outside destDir |
| Archive.ExtractedConcat | pkg/archive/tar.go:177-225 | extracting a concatenation extracts one part, then the other |
| Archive.ExtractableParts | pkg/archive/tar.go:177-225 | each part of an extractable stream is extractable |
| Archive.ExtractableJoin | pkg/archive/tar.go:177-225 | two extractable streams make an extractable stream |
| Archive.OtherKindSkipped | pkg/archive/tar.go:222-223 | an entry of any other kind changes nothing |
| Archive.OtherTypeName | pkg/archive/tar.go:298-299 | other kinds are named "type_" followed by the decimal flag |
| Archive.TarTypeNames | pkg/archive/tar.go:290-301 | two flags get the same name exactly when they are equal or are both regular-file flags |
| Archive.Reads | pkg/archive/tar_test.go:28-56 | the stream that reads back written headers without failure |
| Archive.EntryNameUnderRoot | pkg/archive/tar.go:103 | the node at rel inside a directory source is named root/rel |
| Archive.VisitHeaderName | pkg/archive/tar.go:103-114 | a visited node's header name has no leading "/" and cleans to root + rel |
| Archive.HeaderRestores | pkg/archive/tar.go:194-221 | the header written for a node re-creates that node when extracted |
| Archive.VisitRestores | pkg/archive/tar.go:190-221 | a visited node's header passes secureJoin and lands at destDir/root/rel |
| Archive.RestoreVisits | pkg/archive/tar_test.go:28-56 | extracting the headers of a walk re-creates every walked node, in walk order |
| Archive.RoundTrip | pkg/archive/tar_test.go:28-56 | archiving a source and extracting it under destDir re-creates its tree at destDir/root |
| DockerTypes.ParseContainerInfo | pkg/docker/types.go:24-37 | fails with ErrEmptyInspect exactly when the array does not decode or is empty; otherwise the first element, with ID and mounts unchanged and one leading "/" removed from the name |
| DockerTypes.InspectNameRoundTrip | pkg/docker/types.go:33-35 | a name "/"+n comes back as n, and nothing else changes |
| DockerClient.NonBlank | pkg/docker/client.go:103-108 | the kept lines are non-empty and trimmed |
| DockerClient.ListVolumes | pkg/docker/client.go:101-109 | the trimmed, non-blank lines of the output, in order |
| DockerClient.VolumesRoundTrip | pkg/docker/client.go:93-110 | the output `docker volume ls` prints for a list of names reads back as that list |
| DockerClient.NonBlankWords | pkg/docker/client.go:103-108 | lines that are already single words are kept as they are |
| DockerClient.Present | pkg/docker/client.go:179-184 | the non-empty arguments, in order |
| DockerClient.ImportImageArgs | pkg/docker/client.go:177-184 | "import", then the tar path and the ref, each only when non-empty |
| DockerClient.CreateContainerArgs | pkg/docker/client.go:225-251 | "create", then --name when a name is given, then one -v pair per bind or volume mount, then the image |
| DockerClient.Mountables | pkg/docker/client.go:237-248 | the mounts that get a -v flag are binds and volumes |
| DockerClient.MountArgsPairs | pkg/docker/client.go:230-250 | one "-v spec" pair per bind or volume mount, in mount order |
| DockerClient.MountSpecParses | pkg/docker/client.go:231-245 | a spec reads back as source, destination and mode, and the mode is "ro" exactly for read-only mounts |
| DockerClient.StateRoundTrip | pkg/docker/client.go:358-365 | a status and optional health line reads back as (status, health) |
| DockerClient.OneField | pkg/docker/client.go:362-363 | one word is one field |
| DockerClient.TwoFields | pkg/docker/client.go:365 | two words are two fields |
| DockerClient.TrimmedStateLine | pkg/docker/client.go:358 | the state line trims to the status, then the health if there is one |
| DockerClient.ParseProjectContainers | pkg/docker/client.go:376-395 | the references read from the output: blank and tab-less lines skipped, split at the first tab |
| DockerClient.ListProjectContainers | pkg/docker/client.go:368-396 | the `docker ps` arguments with the project label filter, and the parsed references |
| DockerClient.ListProjectContainersByLabel | pkg/docker/client.go:398-426 | the same command and the same references as ListProjectContainers |
| DockerClient.LineRoundTrip | pkg/docker/client.go:382-393 | the line "id\tname" reads back as that container |
| DockerClient.ComposeV1Service | pkg/docker/client.go:389-392 | "project_service_n" gives the service |
| DockerClient.NoUnderscoreService | pkg/docker/client.go:388-392 | a name without underscores is its own service |
| DockerClient.CreateContainerFromSpec | pkg/docker/client.go:263-265 | always fails with an error whose text contains "not implemented" |
| DockerClient.EnsureVolume | pkg/docker/client.go:277-279 | always fails with "not implemented" |
| DockerClient.EnsureNetwork | pkg/docker/client.go:281-283 | always fails with "not implemented" |
| Options.BackupOptionsBuilder.constructor | pkg/backup/options.go:28-34 | no output path; the default compression level |
| Options.BackupOptionsBuilder.WithOutput | pkg/backup/options.go:36-39 | sets only the output path and returns the same builder |
| Options.BackupOptionsBuilder.WithCompression | pkg/backup/options.go:41-46 | sets the level only when it is positive, and returns the same builder |
| Options.BackupOptionsBuilder.Build | pkg/backup/options.go:48-50 | returns the current options and leaves the builder unchanged |
| Options.ServiceBackupOptions | pkg/backup/engine.go:155-157 | a compose service's backup writes to its own tar, with the default level kept by WithCompression(0) |
| Errors.Unwrap | internal/errors/types.go:43-45 | what an error unwraps to is strictly smaller, so chains of wrapped errors end |
| Errors.OperationMessage | internal/errors/types.go:36-45 | Unwrap gives back exactly the inner error; the text is the op alone when there is none, else "op: inner" |
| Errors.NotFoundMessage | internal/errors/types.go:15-17 | "<Resource> '<Name>' not found" |
| Errors.ValidationMessage | internal/errors/types.go:24-29 | "validation error: msg", or "validation error: field F msg" |
| Errors.WrappedMessageContains | internal/errors/types.go:40 | wrapping keeps every phrase of the inner error's text |
| Errors.NotImplementedShowsThrough | internal/errors/types.go:8 | ErrNotImplemented, however often wrapped, still reads "not implemented" |
| EngineNames.IndexOf | pkg/backup/engine.go:902-915 | the least index where `sub` occurs, 0 for an empty `sub`, -1 exactly when it does not occur |
| EngineNames.StringReplaceAll | pkg/backup/engine.go:892-900 | every occurrence of the one-character pattern is replaced |
| EngineNames.ReplaceByChar | pkg/backup/engine.go:892-900 | replacing one character by another works position by position |
| EngineNames.ReplaceStep | pkg/backup/engine.go:898 | one replacement keeps the final result and removes one occurrence |
| EngineNames.SafeName | pkg/backup/engine.go:877-890 | "container" for "", else the name with '/', '\\', ' ', ':' and tab replaced by '-' |
| EngineNames.SafeNameFixes | pkg/backup/engine.go:877-890 | the result is non-empty and free of unsafe characters, and equals the name exactly when the name already was |
| EngineNames.SafeNameIdempotent | pkg/backup/engine.go:877-890 | applying safeName twice changes nothing more |
| EngineNames.SafeNameCollides | pkg/backup/engine.go:883-888 | names differing only in which unsafe characters they hold get the same file name |
| EngineValidate.Missing | pkg/backup/engine.go:862-867 | the missing entries are required entries |
| EngineValidate.Validate | pkg/backup/engine.go:840-875 | a listing error gives "list archive" wrapping it; otherwise valid exactly when all three required paths are listed, and the details name exactly the missing ones |
| EngineValidate.CheckEntries | pkg/backup/engine.go:846-874 | valid exactly when nothing is missing; the details list each missing entry once |
| EngineValidate.Flags | pkg/backup/engine.go:846-861 | the flag map has exactly the required names |
| EngineValidate.FlagStep | pkg/backup/engine.go:853-860 | an entry sets its own flag, and only a required path sets one |
| EngineValidate.FlagRequired | pkg/backup/engine.go:851-861 | each required name is flagged exactly when the listing names it |
| EngineValidate.Unflagged | pkg/backup/engine.go:862-867 | the unflagged names, each once |
| EngineValidate.ExtraEntriesIrrelevant | pkg/backup/engine.go:853-860 | an entry at another path never changes the outcome |
| EngineValidate.SamePathsSameOutcome | pkg/backup/engine.go:851-861 | only the set of listed paths matters: not order, not repetition |
| EngineValidate.RequiredAlone | pkg/backup/engine.go:846-850 | the three required entries alone are valid; without container.json exactly that one is missing |
| EngineValidate.ReportNames | pkg/backup/engine.go:871 | the details give the missing names back between the brackets |
| EngineBackup.FirstFailure | pkg/backup/engine.go:311-325 | the position of the first failing CreateArchive call: it fails and no call before it does; none exactly when no call of the plan fails |
| EngineBackup.ArchiveMounts | pkg/backup/engine.go:305-328 | one CreateArchive call per planned mount, in order, each failing on its own; stops with the first failing call's mount operation and its error; otherwise all archived, and includesVolumes exactly when the plan is non-empty |
| EngineBackup.FailsFirstAt | pkg/backup/engine.go:305-326 | a failing call with no failing call before it is the one Backup reports |
| EngineBackup.SharedNameFailsAlone | pkg/backup/engine.go:317-324 | of two bind mounts sharing a file name, the second can fail alone, and the error names the second mount |
| EngineBackup.MountPlanConcat | pkg/backup/engine.go:305-328 | the plan of a concatenation is the concatenation of the plans |
| EngineBackup.FirstFailureConcat | pkg/backup/engine.go:311-325 | the first failure of a longer plan is that of its front part when there is one there, and lies beyond the front part otherwise |
| EngineBackup.PlanEmptyIff | pkg/backup/engine.go:301-318 | nothing is archived exactly when no mount is a named volume with a source or a bind with a source |
| EngineBackup.OnDisk | pkg/backup/engine.go:305-328 | every planned archive's file name is in volumes/, holding an archive made under that name |
| EngineBackup.OnDiskKeeps | pkg/backup/engine.go:309-320 | an archive survives in volumes/ when no later archive of the plan has its file name |
| EngineBackup.OnDiskIsLast | pkg/backup/engine.go:309-320 | what volumes/ holds under a file name is the last planned archive with that name |
| EngineBackup.BindArchiveReplaced | pkg/backup/engine.go:317-320 | two bind mounts whose sources end in the same element get one file name, and only the second one's archive is left |
| EngineBackup.MountArchiveRestorable | pkg/backup/engine.go:307-322 | Backup's root is the one Restore strips; Restore finds the file exactly for binds and for volume names safeName leaves alone |
| EngineBackup.CapturedOnce | pkg/backup/engine.go:195-219 | the captured volumes are exactly the inspectable names seen, each once |
| EngineBackup.CollectVolumeConfigs | pkg/backup/engine.go:195-219 | one config per distinct inspectable named volume, in first-seen order |
| EngineBackup.CollectFromMounts | pkg/backup/engine.go:208-218 | one container's mounts extend the seen set and the captured configs |
| EngineBackup.CapturedSnoc | pkg/backup/engine.go:209-216 | a name is captured at its first occurrence when it can be inspected |
| EngineBackup.CollectNetworkConfigs | pkg/backup/engine.go:164-187 | one config per distinct inspectable network name across the containers |
| RestoreNetwork.RemapNetworks | pkg/backup/engine.go:571-581 | with an empty NetworkMap nothing changes; otherwise each attachment is stored under its new name, keeping its endpoint |
| RestoreNetwork.RemapStep | pkg/backup/engine.go:573-579 | one visited attachment lands under its mapped name |
| RestoreNetwork.UnmappedIdentity | pkg/backup/engine.go:571 | with an empty map the attachments are unchanged |
| RestoreNetwork.RemapKeepsAll | pkg/backup/engine.go:571-581 | when no two networks map to one name, every attachment survives with its endpoint |
| RestoreNetwork.InjectiveImage | pkg/backup/engine.go:571-581 | an injective renaming keeps the number of networks |
| RestoreNetwork.TransformNetwork | pkg/backup/engine.go:584-600 | renamed first; the parent override is taken by the new name; with FallbackBridge a macvlan or ipvlan network without a parent becomes a bridge without one; nothing else changes |
| RestoreNetwork.EnsureNetworks | pkg/backup/engine.go:584-602 | each saved config is handed over transformed, in order |
| RestoreNetwork.ParentLookedUpAfterRename | pkg/backup/engine.go:585-592 | an override under the old name is ignored once the network is renamed |
| RestoreNetwork.NoFallbackKeepsDriver | pkg/backup/engine.go:595-600 | without FallbackBridge the driver never changes |
| RestoreNetwork.BuildEndpoints | pkg/backup/engine.go:689-708 | one endpoint per attached network, keeping aliases; IPAM is cleared by ReassignIPs, or under AutoRelaxIPs from the first conflict onward in visiting order |
| RestoreNetwork.VisitEndpoint | pkg/backup/engine.go:693-706 | one endpoint: the conflict flag becomes sticky, and IPAM is cleared or kept |
| RestoreNetwork.BuildStep | pkg/backup/engine.go:692-707 | visiting one more network keeps the built endpoints' invariant |
| RestoreNetwork.EndpointPolicy | pkg/backup/engine.go:701-705 | ReassignIPs clears every IPAM; with neither option every IPAM is kept; with no conflicting address none is cleared |
| RestoreNetwork.StickyConflict | pkg/backup/engine.go:696-702 | under AutoRelaxIPs every endpoint visited at or after a conflicting one is cleared |
| RestoreNetwork.BeforeConflictKept | pkg/backup/engine.go:701-705 | without ReassignIPs, endpoints before the first conflict keep their IPAM |
| RestoreNetwork.VisitStep | pkg/backup/engine.go:696-699 | visiting one more network keeps the earlier conflict flags |
| RestoreHost.KeptAtSpec | pkg/backup/engine.go:671-684 | the kept bindings are an order-preserving subsequence covering every binding the filter keeps |
| RestoreHost.FilterBindings | pkg/backup/engine.go:671-684 | the in-place filter (`bindings[:0]`) leaves exactly the kept bindings at the front of the array |
| RestoreHost.FilterPort | pkg/backup/engine.go:671-684 | one port's bindings after the filter |
| RestoreHost.DropHostIPsKeepsAll | pkg/backup/engine.go:673-676 | with DropHostIPs every binding stays, with an empty host IP |
| RestoreHost.AllPresentUnchanged | pkg/backup/engine.go:673-680 | bindings whose host IP is empty or present are all kept unchanged |
| RestoreHost.KeptIff | pkg/backup/engine.go:673-682 | without DropHostIPs a binding survives exactly when its host IP is empty or present |
| RestoreHost.FilterSecurityOpt | pkg/backup/engine.go:735-747 | the security options that survive, in order |
| RestoreHost.KeptOptsIff | pkg/backup/engine.go:738-744 | an option survives exactly when it is not a seccomp= or apparmor= entry the options drop |
| RestoreHost.KeptOptsNothingDropped | pkg/backup/engine.go:735-747 | when no option matches, the list is unchanged |
| RestoreHost.RelocatedUnderRoot | pkg/backup/engine.go:750-762 | only bind mounts with a missing source move, only their source changes, and the new source is root/base |
| RestoreHost.ParsePlain | pkg/backup/engine.go:756 | a plain element parses to itself |
| RestoreHost.PreferredIP | pkg/backup/engine.go:773-778 | ForceBindIP, else the interface's address, else "" |
| RestoreHost.ForceBindIPWins | pkg/backup/engine.go:773-774 | a forced IP wins over the interface |
| RestoreHost.PinnedBindings | pkg/backup/engine.go:780-785 | pinning adds and removes no binding, sets every host IP, keeps the host ports, and pinning twice changes nothing more |
| RestoreHost.ForcedAfterFilter | pkg/backup/engine.go:664-787 | after the filter and pinning, every surviving binding carries the forced IP |
| RestoreHost.PinPort | pkg/backup/engine.go:781-783 | one port's bindings with the host IP set |
| RestoreHost.HostConfig.constructor | pkg/backup/engine.go:657-660 | the host config holds the given fields |
| RestoreHost.HostConfig.FilterPortBindings | pkg/backup/engine.go:664-686 | every port keeps exactly its filtered bindings; no other field changes |
| RestoreHost.HostConfig.ApplySafeDrops | pkg/backup/engine.go:728-747 | DropDevices clears devices, DropCaps clears CapAdd and CapDrop, the security options are filtered; ports and mounts are unchanged |
| RestoreHost.HostConfig.RelocateBinds | pkg/backup/engine.go:750-762 | with a root, every mount is relocated in place; without one, nothing changes |
| RestoreHost.HostConfig.ApplyPreferredIP | pkg/backup/engine.go:771-787 | with a non-empty IP, every binding of every port is pinned to it; nothing else changes |
| RestoreHost.PrepareHostConfig | pkg/backup/engine.go:663-787 | the whole host-config pipeline in source order: filter, drops, relocation, pinning |
| RestoreSpec.ReadInspect | pkg/backup/engine.go:525-532 | the object form when it decodes, else the first element of the array form, else "unmarshal container.json", wrapping the array's decoding error when there is one |
| RestoreSpec.ReadInspectAcceptsMore | pkg/backup/engine.go:525-532 | Restore accepts every array ParseContainerInfo accepts, and also the object form ParseContainerInfo refuses |
| RestoreSpec.ImageRef | pkg/backup/engine.go:534-554 | the original image when image.tar loads and names one; else the imported filesystem's id; else the matching error |
| RestoreSpec.ImageRefErrors | pkg/backup/engine.go:543-553 | a missing filesystem.tar and a failed import are reported under their own operations |
| RestoreSpec.Run | pkg/backup/engine.go:625-650 | the calls are made in order until one fails, and the error names that call's operation |
| RestoreSpec.RunConcat | pkg/backup/engine.go:625-650 | running two call lists is running the first, then the second if nothing failed |
| RestoreSpec.RestoreMount | pkg/backup/engine.go:626-649 | one mount's calls: create the volume, then fill it if its archive is there; for a bind whose archive is there, make the directory, then extract |
| RestoreSpec.RestoreMounts | pkg/backup/engine.go:625-650 | every mount's calls in turn, stopping at the first failure |
| RestoreSpec.AllMountStepsConcat | pkg/backup/engine.go:625 | the calls for a concatenation of mounts are concatenated |
| RestoreSpec.RestoresWhatBackupWrote | pkg/backup/engine.go:630-645 | a mount whose Backup archive file is present has that file extracted, stripping the root Backup wrote; it holds this mount's own archive only when no later mount shares its file name |
| RestoreSpec.SharedBindArchiveRestored | pkg/backup/engine.go:638-645 | with two bind mounts sharing a last element, the file left holds the second source, and Restore extracts it into the first mount's directory too |
| RestoreSpec.UnsafeVolumeNotRefilled | pkg/backup/engine.go:630 | a volume name that safeName changes is looked up under its unchanged name, so the volume is created empty |
| RestoreSpec.OtherMountsUntouched | pkg/backup/engine.go:625-650 | other mount kinds cause no call |
| RestoreSpec.NewName | pkg/backup/engine.go:711-717 | the requested name, else the inspected name without its leading "/" |
| RestoreSpec.NewNameAsParsed | pkg/backup/engine.go:711-714 | without a requested name, the container keeps the name ParseContainerInfo gives |
| RestoreSpec.RemoveExistingArgs | pkg/backup/engine.go:718-721 | `rm -f name` exactly when ReplaceExisting is set and the name is not empty |
| RestoreSpec.CreateContainer | pkg/backup/engine.go:793-806 | the spec's container; an error without "not implemented" wrapped as "container create from spec"; otherwise `docker create` with the name, the effective mounts and the image, its error wrapped as "docker create" |
| RestoreSpec.CliClientFallsBack | pkg/backup/engine.go:793-806 | the CLI client always falls back, and succeeds exactly when `docker create` does |
| RestoreSpec.WrappedNotImplementedFallsBack | pkg/backup/engine.go:794 | a wrapped ErrNotImplemented still triggers the fallback |
| RestoreSpec.UnrelatedFailureFallsBack | pkg/backup/engine.go:794 | any error whose text contains the phrase triggers it too |
| RestoreSpec.CreateErrors | pkg/backup/engine.go:794-805 | each create error names the operation that failed and wraps its error |
| RestoreSpec.TimeoutSeconds | pkg/backup/engine.go:816-819 | a positive timeout is kept; zero or less becomes 120 seconds |
| RestoreSpec.WaitOutcome | pkg/backup/engine.go:821-833 | the wait ends at the first poll past the deadline, with a stopped status, or healthy |
| RestoreSpec.WaitHealthy | pkg/backup/engine.go:821-833 | the polling loop ends as WaitOutcome says, after that many polls |
| RestoreSpec.StartAndWait | pkg/backup/engine.go:808-837 | starts when asked, wrapping a start error as "docker start"; waits only with WaitHealthy and a healthcheck; the result is the container id |
| RestoreSpec.WaitStopsAtFirst | pkg/backup/engine.go:821-833 | the first poll that ends the wait decides the outcome |
| ComposeRestore.ComposeOrder | pkg/backup/engine.go:442-476 | the compose file's start order when it names services, else the service directories in ascending order; every service once |
| ComposeRestore.Enumerate | pkg/backup/engine.go:472-474 | lists each service once |
| ComposeRestore.OrderOfServices | pkg/backup/engine.go:453-476 | the order lists every service once, and is never empty when the file declares services |
| ComposeRestore.DependenciesFirst | pkg/backup/engine.go:454-457 | when the dependencies can be met, services restore after what they depend on |
| ComposeRestore.DirectoriesAlphabetical | pkg/backup/engine.go:463-476 | without a compose file: the sub-directories of containers/, sorted; plain files ignored |
| ComposeRestore.FirstTarGz | pkg/backup/engine.go:485-490 | the first entry whose name ends in ".tar.gz", or none |
| ComposeRestore.Restored | pkg/backup/engine.go:479-498 | a service counts as restored only if it is in the order, has an archive and its restore succeeded |
| ComposeRestore.ServiceRestoreOptions | pkg/backup/engine.go:494 | the request's portability and safe-mode options, without start, name, network or parent maps, or waiting |
| ComposeRestore.ServiceNetworksKeepNames | pkg/backup/engine.go:494 | services restore their networks under their own names, untouched without FallbackBridge |
| ComposeRestore.RestoreServices | pkg/backup/engine.go:479-506 | the reported id joins the restored services with "," |
| ComposeRestore.StartCommands | pkg/backup/engine.go:499-505 | one `docker start svc` per service, in order |
| ComposeRestore.RestoreCompose | pkg/backup/engine.go:442-506 | the order, the per-service options, the reported id, and the start commands when asked |
| ComposeRestore.RestoredIDNames | pkg/backup/engine.go:506 | split at commas, the id gives back the restored services; it is "" exactly when none was restored |
| ComposeRestore.FailureSkipsOnlyThatService | pkg/backup/engine.go:494-497 | one failing service drops only itself from the restored set |
| HostExtract.StripRoot | pkg/backup/engine.go:942-948 | removes "root/" when the name starts with it, and nothing otherwise |
| HostExtract.ExtractTarGzToHost | pkg/backup/engine.go:917-973 | as written: success exactly when every read succeeds; then each entry's actions at destDir joined with the stripped name |
| HostExtract.HostStep | pkg/backup/engine.go:942-970 | one more entry appends its actions |
| HostExtract.BackupEntriesLandInside | pkg/backup/engine.go:942-949 | the entries Backup writes for a bind land at destDir and below it |
| HostExtract.DotDotEntryEscapes | pkg/backup/engine.go:949 | an entry "../x" is written beside destDir, outside it |
| HostExtract.DotDotName | pkg/backup/engine.go:949 | "../x" is already clean: two elements |
| HostExtract.NotUnderPlainRoot | pkg/backup/engine.go:945 | "../x" never starts with a plain root and "/" |
| HostExtract.ExtractTarGzToHostContained | pkg/backup/engine.go:917-973 | corrected: stops at the first entry that would leave destDir; otherwise as written |
| HostExtract.SafeEntry | pkg/backup/engine.go:929-970 | one step of the corrected loop |
| HostExtract.SafeStep | pkg/backup/engine.go:942-970 | one more accepted entry appends its actions |
| HostExtract.ContainedExtractionStaysInside | pkg/backup/engine.go:949 | the corrected extraction names no path outside destDir |
| HostExtract.CorrectionKeepsBackupEntries | pkg/backup/engine.go:942-949 | on archives Backup writes, the correction changes no target |
| HostExtract.CorrectionRefusesDotDot | pkg/backup/engine.go:949 | the corrected extraction refuses "../x" |

## Left out

- Process execution and Docker daemon calls are left out: `exec.CommandContext`, `execCommand` and the SDK client. Their outcomes enter as parameters (maps of failing calls, the create and start results, the `docker` stdout).
- JSON, YAML, gzip and tar byte encoding are left out; the model works on decoded values and header sequences.
- File-system I/O is left out. Writes are modelled as a list of actions: make a directory, make a parent, write a file, make a symlink. Open and copy failures inside ExtractArchive and extractTarGzToHost are not modelled; only read errors and cancellation are.
- Host introspection (`HostIPs`, `conflictWithHostIPv4`, `primaryIPv4OfInterface`, `os.Stat`) enters as parameters.
- Context cancellation is modelled as a count of `ctx.Done()` polls: before each source, at each visited node, and, when reading or extracting, at each loop turn. A context that becomes done while a file's bytes are copied is not modelled.
- Go's map iteration order is not fixed. Results are stated for every order, except IPAM clearing, which is stated over the order visited.
- `archive.DefaultCompressionLevel` is a constructor parameter, and `SetCompressionLevel` is not modelled: neither is defined in the modelled files.
- EngineNames.StringReplaceAll: modelled only for one-character patterns not occurring in their replacement. These are the only calls safeName makes; for other patterns the Go loop may not terminate.
- The health wait's clock and sleep are left out: each poll carries whether the deadline has passed.
- RestoreSpec.TimeoutSeconds: does not model the overflow of `time.Duration` for very large timeouts.
- RestoreSpec.CreateContainer: the host-config and networking changes reach only the spec-based create. The CLI fallback receives the name, the effective mounts and the image, as in the source.
- TagImage and the EnsureVolume/EnsureNetwork calls are best-effort, and their errors are ignored. In a compose restore they are left out; in a single restore, EnsureNetworks records the configs handed over.
- fmt's `%q` is modelled as wrapping in double quotes, which is exact for names without characters that need escaping.
- The per-service restore inside a compose restore is a parameter: the set of services whose restore fails.
- Archive.CreateArchive: errors of ensureParentDir, os.Create, tar.FileInfoHeader, filepath.Rel and of the gzip and tar writers are left out. Cancellation, Lstat, Readlink, Open, io.Copy and directory-read errors, and missing sources, are modelled; the faults are a parameter naming the path each one happens at.
- EngineBackup.ArchiveMounts: mounts whose archives share a file name (binds whose sources end in the same element, or volume names safeName maps alike) overwrite each other in volumes/; the later one is kept. OnDisk and BindArchiveReplaced state it; the plan is not changed to avoid it. Each CreateArchive call still fails or succeeds on its own: failures are given per plan position (SharedNameFailsAlone).
- cmd/, the logger and pkg/filesystem are not part of this model.

## Findings

| source | as written | input that shows it | evidently intended | confidence | as-written member | corrected member |
|---|---|---|---|---|---|---|
| pkg/backup/engine.go:949 | extractTarGzToHost joins each stripped entry name onto destDir with no containment check, unlike secureJoin in pkg/archive/tar.go | a bind-mount archive holding an entry "../x", restored into "/srv/data", writes "/srv/x", outside the bind directory | refuse entries that leave destDir, as ExtractArchive does with secureJoin | not executed | HostExtract.DotDotEntryEscapes | HostExtract.ExtractTarGzToHostContained |
