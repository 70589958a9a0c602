# kubedeploy core, modelled in Dafny

This project models the core of `twyla.kubedeploy`, a small tool that deploys a service's Docker image to Kubernetes. The model covers five pieces of `twyla/kubedeploy/__init__.py`:

- the image tag codec `make_tag` / `tag_components` (`domain/name:version`);
- `head_of`, which picks the short commit id to deploy from the remote tracking branches of every remote;
- the credential lookup and the existence test of `docker_image_exists`;
- `fill_deployment_definition`, which points a deployment object at a tag, in place;
- the default service name computed by `load_options`.

Files, one module each:

- `wrappers.dfy` (`Wrappers`): `Option` and `Result`, used in place of Python's `None` and exceptions.
- `strings.dfy` (`Strings`): the Python string operations the code uses with a one-character separator: `split(c, 1)` unpacked into two names, `rstrip(c)`, and `rsplit(c, 1)[-1]`.
- `tag.dfy` (`TagCodec`): `MakeTag`, `TagComponents` and their round trip.
- `registry.dfy` (`Registry`): `docker_image_exists` as a pure function. Its inputs are the parsed credential file, a decoder for the stored blob, and the registry's tag listing.
- `remote_head.dfy` (`RemoteHead`): `head_of` as methods with the source's loops, proved against the specification function `Resolve`.
- `deployment.dfy` (`Deployments`): the deployment object as a class, and `FillDeploymentDefinition` as a method that changes it in place.
- `options.dfy` (`Options`): `DefaultServiceName`.

## Abstractions

- **The git repository** is a value `Repo`. It holds the active branch (`None` where `repo.active_branch` raises), the HEAD commit, and the remotes. Each remote has a name and a sequence of refs, and each ref is a name plus the full commit it points at. The repository is taken as it is after every remote has been fetched.
- **`rev_parse(x, short=8)`** is the function parameter `short`. `rev_parse(ref.name)` at line 179 is the ref's own full commit.
- **`sys.exit(1)`** becomes a `Failure` result, and an uncaught `KeyError`, `ValueError` or `IndexError` becomes one too.
- **`~/.docker/config.json`**: reading the file and `json.load` are left out; the parsed document is the input `AuthFile`.
- **Decoding**: `base64.b64decode(...).decode('utf8')` is the function parameter `decode`, which returns `None` where Python raises.
- **The registry**: `DockerRegistryClient(...).repository(name).tags()` is the function parameter `tagsOf`, applied to the login and the repository.
- **The deployment object**: the nested Kubernetes client objects are flattened into one class, `Deployments.Deployment`. It has `name`, the template `labels`, `revisionHistoryLimit`, `replicas` (standing for every field the function leaves alone) and `containers: array<Container>`.

## Behaviour worth knowing

- **Branch before local mode.** A user might expect `local=True` to skip the branch altogether. But `head_of` resolves the branch first (lines 129-137) and tests `local` only afterwards (line 139). So local mode without a branch still fails on a detached HEAD.
- **Agreeing remotes.** One would expect several matching refs that point at the same commit to resolve to that commit, and the code's comments say so. As written, though, the code aborts on any second match: see "Findings". `HeadOf` models the code as written. `HeadOfIntended` models the rule the comments describe.
- **Partial mutation.** `fill_deployment_definition` assigns the name, the label and the history limit before it indexes `containers[0]`. On an empty container list those three assignments have already taken effect when the `IndexError` is raised.
- **Colons in the password.** The decoded credentials are split at their first `:` (line 101), not required to contain exactly one. So a password may itself contain `:`.

## Model

| member | source | states |
|---|---|---|
| `Strings.SplitOnce` | twyla/kubedeploy/__init__.py:69-70 | `split(c, 1)` unpacked into two names fails exactly when `c` does not occur. Otherwise the left part has no `c` and `left + c + right` is the input. |
| `Strings.SplitOnceUnique` | twyla/kubedeploy/__init__.py:69-70 | The split at the first `c` is the only decomposition `left + c + right` with no `c` in `left`. |
| `Strings.RStrip` | twyla/kubedeploy/__init__.py:194 | `rstrip(c)` yields a prefix of the input that does not end in `c`; everything it removed is `c`. |
| `Strings.AfterLast` | twyla/kubedeploy/__init__.py:194 | `rsplit(c, 1)[-1]` is a suffix without `c`. It is preceded by a `c` unless it is the whole input. |
| `TagCodec.MakeTag` | twyla/kubedeploy/__init__.py:64-65 | `make_tag` is two characters longer than its parts, with `/` right after the domain and `:` right before the version. `TagRoundTrip` and `TagComponentsSucceedsIffBuilt` describe it together with its parser. |
| `TagCodec.TagComponents` | twyla/kubedeploy/__init__.py:68-72 | A successful parse has no `/` in the domain and no `:` in the repository, and rebuilding it gives the input tag. Parsing fails on the domain exactly when the tag has no `/`. |
| `TagCodec.TagRoundTrip` | twyla/kubedeploy/__init__.py:64-72 | `tag_components(make_tag(d, n, v)) == (d, n, v)` when `d` has no `/` and `n` has no `:`. |
| `TagCodec.TagComponentsSucceedsIffBuilt` | twyla/kubedeploy/__init__.py:64-72 | A tag parses exactly when it is `make_tag` of some valid parts. |
| `TagCodec.NoVersionSeparatorIff` | twyla/kubedeploy/__init__.py:69-70 | For `domain/rest` with no `/` in the domain, parsing fails on the version exactly when `rest` has no `:`. |
| `Registry.EncodedCredentials` | twyla/kubedeploy/__init__.py:97 | The lookup `data['auths'][domain]['auth']` succeeds exactly when all three keys are present. A missing domain gives the domain-specific error. |
| `Registry.LoginFor` | twyla/kubedeploy/__init__.py:103-105 | The registry client is opened on `https://` followed by the tag's domain, with the username and the password unchanged. |
| `Registry.ParseCredentials` | twyla/kubedeploy/__init__.py:101 | Splitting the decoded text fails exactly when it has no `:`. On success the username has no `:` and `username + ":" + password` is the text. |
| `Registry.ParseCredentialsInverse` | twyla/kubedeploy/__init__.py:99-101 | Any `user:password` whose user has no `:` splits back into that user and password, with colons kept in the password. |
| `Registry.ParseCredentialsExample` | twyla/kubedeploy/__init__.py:98-101 | `alice:secret` yields user `alice` and password `secret`. |
| `Registry.ImageExists` | twyla/kubedeploy/__init__.py:88-107 | A malformed tag fails with the tag error. A success needs a parsed tag, a stored `auth` entry for its domain, and decoded text with a `:`. `ImageExistsIffListed`, `ImageExistsNeedsDomainEntry`, `ImageExistsNeedsSeparator` and `ImageExistsReadsOnlyItsDomain` describe the result. |
| `Registry.ImageExistsIffListed` | twyla/kubedeploy/__init__.py:96-107 | Take a valid tag whose domain has a decodable `user:password` entry. The result is exactly whether the version is among the repository's tags on `https://{domain}` under that login. |
| `Registry.ImageExistsNeedsDomainEntry` | twyla/kubedeploy/__init__.py:96-97 | A tag whose domain has no entry under `auths` fails with that domain's error. |
| `Registry.ImageExistsNeedsSeparator` | twyla/kubedeploy/__init__.py:99-101 | Decoded credentials without `:` make the probe fail before the registry is asked. |
| `Registry.ImageExistsReadsOnlyItsDomain` | twyla/kubedeploy/__init__.py:96-97 | Two credential files that agree on the tag's domain entry give the same answer: only the tag's own domain is looked up. |
| `RemoteHead.CollectRemoteRefs` | twyla/kubedeploy/__init__.py:148-166 | The nested loops collect exactly `Matching(remotes, branch)`: for each remote in turn, its refs named `{remote}/{branch}`, in order. |
| `RemoteHead.SeenCommits` | twyla/kubedeploy/__init__.py:177-179 | The keys of `seen` are exactly the distinct full commits of the matching refs. |
| `RemoteHead.Matching` | twyla/kubedeploy/__init__.py:148-166 | The specification of the nested loops: for each remote in turn, its refs named `{remote}/{branch}`. Its meaning is stated by `MatchingMember` (a ref is collected exactly when some remote holds it under that name) and `MatchingAppend` (remote order), and `CollectRemoteRefs` is proved equal to it. |
| `RemoteHead.Resolve` | twyla/kubedeploy/__init__.py:127-188 | The inconclusive-branch error occurs exactly when no branch is given and none is active. In local mode a success is the short HEAD commit. Otherwise a success is the short commit of the first match, and every other failure names the branch. The lemmas `InconclusiveBranchFirst` to `AgreeingRemotesExample` describe each case. |
| `RemoteHead.ResolveFromActiveBranch` | twyla/kubedeploy/__init__.py:129-137 | Without an explicit branch, the result is the one for the active branch given explicitly. |
| `RemoteHead.HeadOf` | twyla/kubedeploy/__init__.py:127-188 | The method as written returns `Resolve(..., AsWritten)`. Branch resolution comes first, then local mode, then no match fails, any second match fails, and otherwise it returns the short commit of the first match. |
| `RemoteHead.HeadOfIntended` | twyla/kubedeploy/__init__.py:127-188 | The same method with the check the comments describe: it returns `Resolve(..., Intended)`. |
| `RemoteHead.FilterRefsMember` | twyla/kubedeploy/__init__.py:151-166 | Within one remote, a ref is collected exactly when its name is the wanted `{remote}/{branch}`. |
| `RemoteHead.FilterRefsAppend` | twyla/kubedeploy/__init__.py:151-166 | Collection keeps the refs' enumeration order: filtering distributes over concatenation. |
| `RemoteHead.MatchingMember` | twyla/kubedeploy/__init__.py:148-166 | A ref is collected exactly when some remote holds it under the name `{that remote}/{branch}`. No other ref is collected. |
| `RemoteHead.MatchingAppend` | twyla/kubedeploy/__init__.py:149-166 | Remotes are visited in order: the matches of earlier remotes precede those of later ones. |
| `RemoteHead.MatchingSingle` | twyla/kubedeploy/__init__.py:149-166 | One remote contributes exactly its own refs named `{remote}/{branch}`, in its order. |
| `RemoteHead.InconclusiveBranchFirst` | twyla/kubedeploy/__init__.py:129-140 | With no branch given and no active branch, `head_of` fails, in local mode too. |
| `RemoteHead.LocalIgnoresRemotes` | twyla/kubedeploy/__init__.py:139-140 | In local mode with a known branch, the result is the short HEAD commit. Replacing the remotes changes nothing. |
| `RemoteHead.NoMatchFails` | twyla/kubedeploy/__init__.py:169-172 | If no remote has a ref named `{remote}/{branch}`, the result is the no-tracking-branch error for that branch. |
| `RemoteHead.SingleMatchResolves` | twyla/kubedeploy/__init__.py:169-188 | With exactly one match, the result is the short form of its commit, under both readings. |
| `RemoteHead.AsWrittenAbortsOnSecondMatch` | twyla/kubedeploy/__init__.py:176-184 | As written, two or more matches always fail with the ambiguity error. |
| `RemoteHead.CommitsSingleton` | twyla/kubedeploy/__init__.py:177-180 | `seen` has exactly one key exactly when every match has the first match's commit. |
| `RemoteHead.IntendedResolution` | twyla/kubedeploy/__init__.py:174-188 | Under the intended rule, with at least one match, the method fails exactly when some match's commit differs from the first one's. Otherwise it returns the short commit that every match shares. |
| `RemoteHead.AgreeingRemotesExample` | twyla/kubedeploy/__init__.py:174-188 | Take two remotes that track `main` at one commit. As written this fails; under the intended rule it returns that commit's short form. |
| `Deployments.FillDeploymentDefinition` | twyla/kubedeploy/__init__.py:110-124 | The method sets name and label `name` to `???` and the history limit to 5. It sets the first container's image to the tag and leaves everything else as it was. It fails on an empty container list, after the first three assignments. |
| `Deployments.Filled` | twyla/kubedeploy/__init__.py:113-122 | Afterwards the name is `???` and the labels gain `name`. The container count and the other fields are kept, and a non-empty list has the tag on container 0. `FilledIdentity`, `FilledTouchesOnlyFirstContainer`, `FilledLastTagWins` and `FilledIdempotent` describe it. |
| `Deployments.FilledIdentity` | twyla/kubedeploy/__init__.py:113-118 | Afterwards the deployment name and its `name` label are the same value `???`, and the limit is 5. |
| `Deployments.FilledTouchesOnlyFirstContainer` | twyla/kubedeploy/__init__.py:116-122 | Only container 0 is retagged, and it keeps its name. Every other container, every other label and the other fields are unchanged. |
| `Deployments.FilledLastTagWins` | twyla/kubedeploy/__init__.py:110-124 | Filling with one tag and then another is the same as filling once with the second tag. |
| `Deployments.FilledIdempotent` | twyla/kubedeploy/__init__.py:110-124 | Filling twice with the same tag is the same as filling once. |
| `Options.DefaultServiceName` | twyla/kubedeploy/__init__.py:194 | For the separator `os.sep` given as a parameter, the default name has no separator. It is a suffix of the path without its trailing separators, preceded there by a separator unless it is that whole path. |
| `Options.DefaultServiceNameEmpty` | twyla/kubedeploy/__init__.py:194 | The default name is empty exactly when the path consists of separators only. |
| `Options.DefaultServiceNameTrailing` | twyla/kubedeploy/__init__.py:194 | A trailing separator does not change the default name. |
| `Options.DefaultServiceNameOfJoin` | twyla/kubedeploy/__init__.py:194 | The default name of `dir/name` is `name` for any non-empty `name` without a separator. |

## Findings

| source | as written | input that shows it | evidently intended | confidence | as-written member | corrected member |
|---|---|---|---|---|---|---|
| twyla/kubedeploy/__init__.py:180 | `seen.keys() != 1` compares a dict keys view with an int. That is never equal, so every run with two or more matching refs aborts. | Remotes `origin` and `mirror` both track `main` at commit `abc12345ff`. | Abort only when the matching refs name more than one distinct commit (`len(seen) != 1`), as the comments at lines 174-175 and 186-187 say. | high, not executed | `RemoteHead.HeadOf` with `RemoteHead.AsWrittenAbortsOnSecondMatch` and `RemoteHead.AgreeingRemotesExample` | `RemoteHead.HeadOfIntended` with `RemoteHead.IntendedResolution` |

## Left out

- The click commands `cli`, `deploy`, `build`, `push`, `info` and `main` (lines 204-301). They only wire arguments to the functions modelled here.
- `prompt`, `error_prompt` and colorama (lines 21-35). These are console output; the messages `head_of` prints are not modelled.
- `download_requirements` (lines 39-61), including its `git+ssh` line filter. It is filesystem work, temporary directories and a call to `pip.main`.
- `docker_image` (lines 75-85). It calls the Docker daemon to build and push.
- `docker_image_exists`: opening and JSON-parsing `~/.docker/config.json` (lines 90-93) is I/O. The model starts from the parsed document, so a missing file or malformed JSON is not modelled.
- `Registry.AuthFile`: entries that are not objects are dropped from the modelled input. Examples are a top-level `"credsStore": "desktop"`, an `"HttpHeaders"` map of strings, or another domain's odd entry. Dropping them does not change the result, because only `auths[domain]['auth']` is read (`ImageExistsReadsOnlyItsDomain`). Only a non-object on the looked-up path, where Python raises a `TypeError`, cannot be expressed.
- `docker_image_exists`: base64 and UTF-8 decoding (line 99) are a library call, taken as the parameter `decode`.
- `docker_image_exists`: the registry session and its tag listing (lines 103-107) are network calls, taken as the parameter `tagsOf`. Authentication and transport errors are not modelled.
- `head_of`: `git.Repo` and `remote.fetch()` (lines 128, 150) are network and repository I/O. The model takes the state after fetching as its input.
- `head_of`: how `rev_parse` shortens a commit is git's business, taken as the parameter `short`.
- `load_options` beyond line 194: the defaults dictionary and the YAML configuration file (lines 195-201). `.kube.Kube` is not part of this model.
- `Deployments.FillDeploymentDefinition`: the Kubernetes client's own attribute names and its nested objects are not modelled. The nested objects are flattened into one class, so aliasing between them (or between container objects) is not represented.
- `Deployments.FillDeploymentDefinition`: `labels` being `None`, which would raise a `TypeError`, is not modelled.
