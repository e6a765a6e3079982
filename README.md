# design-pattern scaffolding commands in Dafny

This project models the two Artisan console commands of the Laravel package
`radhitka/design-pattern`:

- `make:repository {name} {--m=} {--i}` writes a repository class. It can
  bind the class to a model (`--m`) and write an interface beside it (`--i`).
- `make:service {name} {--i}` writes a service class, again with an
  optional interface.

Both commands extend Laravel's `GeneratorCommand`. The members they inherit
and whose bodies are not part of this model are the fields of
`Generator.Framework`. Examples are `qualifyClass`, `getPath`,
`alreadyExists`, `replaceNamespace`, `replaceClass`, `sortImports`,
`qualifyModel` and `handleTestCreation`. Each is an arbitrary function
chosen by the caller. Every theorem holds for any such functions that meet
its `requires`. Only these theorems constrain them:

- `KeepsExistingClassFile` (both commands) assumes that `alreadyExists(n)`
  holds exactly when `getPath(qualifyClass(n))` is a key of the files.
- `CreatesClassAndInterface` (both commands) assumes that
  `getPath(qualifyClass(n))` is `<dir><n>.php` and that `<n>.php` starts
  nowhere earlier in that path. `CreatesClassAndInterfaceAnyPath` has no
  such assumption.
- `ReplaceModelClearsTokens` assumes that
  `qualifyModel(model)` contains no `{`.
- `ReplaceModelValues` and `PlaceholderCanSurvive` fix what `qualifyModel`
  returns for their model.
- `RejectsModel`, `WritesClass`, `CreatesClass`, `CreatesClassAndInterfaceAnyPath`
  and `CreatesClassAndInterface` describe the run past the guards, so they
  assume `!Refused`: `isReservedName(n)`
  is false, and `alreadyExists(n)` is false unless a set force option skips it.

Files:

- `wrappers.dfy`: `Option` and `Result`.
- `php_strings.dfy`: the PHP string functions the commands call.
  `str_replace` scans left to right and replaces non-overlapping matches.
  The model also covers `trim` with its default character set, `lcfirst`,
  `basename`, and Laravel's `class_basename`.
- `placeholders.dfy`: what replacing `{{ ... }}` tokens one after another
  does to a text.
- `generator.dfy`: what both commands share.
  - `World` holds the files by path, the directories made, the foreign
    commands invoked and the console lines written.
  - `Host` is the same state as a class whose methods change it in place.
  - It also holds `getNameInput`, the interface path derived from the main
    path, and the summary line.
- `repository_command.dfy` and `service_command.dfy` model one command each.
  - The stub getters and the stub decision table.
  - The `build*` functions, plus `parseModel` and `replaceModel` for
    repositories.
  - `Run`, which is `handle()` as a function of the world before the run.
    It is `Handled` applied to the normalised name `getNameInput()`.
  - `Handle`, which is `handle()` written step by step against a `Host`.
    It is proved to end in the state and outcome `Run` gives.
  - The lemmas about `Handled`, stated for any normalised name `n`.
- `commands.dfy`: a fact that relates the two commands.

`handle()` ends in one of three ways, modelled by `Outcome`. It can return
`false`, fall off its end (`null`), or let `parseModel`'s
`InvalidArgumentException` escape. `Artisan::call('make:model', …)` and the
test creation are recorded as `Call` events. Their effects are not modelled.

Facts about the code that the model keeps:

- Neither signature declares `--force`. `handle` tests `hasOption('force')`
  before reading the option, so the model takes "a force option is
  declared" and "it is set" as two inputs.
- `if ($model)` uses PHP truthiness: an absent `--m`, `--m=` and `--m=0`
  are all false (`RepositoryCommand.ModelGiven`). Such a run neither calls
  `make:model` nor checks the model name, and it behaves exactly as a run
  without `--m` (`RepositoryCommand.FalsyModelIsAbsent`).
- Only the class file is guarded by the existence check. The interface file
  is written whatever the files hold at its path
  (`CreatesClassAndInterfaceAnyPath`).
- An invalid model name throws after `make:model` has been called and the
  class directory made (`RejectsModel`).
- `str_replace` replaces every `<name>.php` in the class path, not only the
  trailing one (`Generator.InterfaceDirReplacesEarlierOccurrence`).
- "No model token remains after `replaceModel`" is proved only for stubs in
  which every `{{` opens one of the three tokens. Without that condition it
  can fail: `RepositoryCommand.PlaceholderCanSurvive` shows
  `"{{ {{ m }} }}"` with the model `m` becoming `"{{ m }}"`.

## Model

| member | source | states |
|---|---|---|
| PhpStrings.StrReplace | src/Commands/RepositoryCommand.php:186-190 | no contract of its own: str_replace with one search string, scanning left to right for non-overlapping matches; judged by StrReplaceChars, StrReplaceAbsent, StrReplaceChar, StrReplaceAfterPrefix and StrReplaceKeepsPrefix |
| PhpStrings.StrReplaceChars | src/Commands/RepositoryCommand.php:186-190 | every character str_replace returns comes from the subject or from the replacement |
| PhpStrings.StrReplaceAbsent | src/Commands/RepositoryCommand.php:186-190 | str_replace leaves a text without the search string unchanged |
| PhpStrings.StrReplaceChar | src/Commands/RepositoryCommand.php:36 | replacing one character by another keeps the length and changes exactly the positions holding that character |
| PhpStrings.StrReplaceAfterPrefix | src/Commands/RepositoryCommand.php:93 | a prefix in which the search string never starts passes through str_replace untouched |
| PhpStrings.StrReplaceKeepsPrefix | src/Commands/RepositoryCommand.php:186-190 | the first k characters survive str_replace when no match starts among them |
| PhpStrings.Trim | src/Commands/RepositoryCommand.php:36 | trim's result neither starts nor ends with one of " \t\n\r\0\x0B" |
| PhpStrings.TrimIsInfix | src/Commands/RepositoryCommand.php:36 | trim's result is a contiguous part of its input, and only trimmable characters were cut on either side |
| PhpStrings.TrimOfTrimmed | src/Commands/RepositoryCommand.php:36 | a text whose ends are not trimmable is its own trim |
| PhpStrings.Lcfirst | src/Commands/RepositoryCommand.php:183 | lcfirst keeps the length and the tail and lower-cases only an ASCII capital in front, to the same letter in lower case |
| PhpStrings.Basename | src/Commands/RepositoryCommand.php:182 | no contract of its own: PHP basename without a suffix, the last '/'-separated segment once trailing slashes are dropped; judged by BasenameChars and ClassBasenameOfQualified |
| PhpStrings.ClassBasename | src/Commands/RepositoryCommand.php:182 | class_basename has no '/' or '\' and every character comes from the class name |
| PhpStrings.ClassBasenameOfQualified | src/Commands/RepositoryCommand.php:182 | the class basename of `namespace\name` is `name` |
| Placeholders.ReplaceRetiresToken | src/Commands/RepositoryCommand.php:180-190 | replacing a token by a value without '{' leaves every "{{" opening one of the remaining tokens |
| Placeholders.NoBracesNoToken | src/Commands/RepositoryCommand.php:180-190 | a text with no "{{" left contains no token |
| Generator.Host.MakeDirectory | src/Commands/RepositoryCommand.php:82 | makeDirectory adds the path's directory and changes nothing else |
| Generator.Host.Put | src/Commands/RepositoryCommand.php:87 | files->put sets the file at the path and changes nothing else |
| Generator.Host.Invoke | src/Commands/RepositoryCommand.php:74-76 | a foreign command is appended to the calls |
| Generator.Host.Report | src/Commands/RepositoryCommand.php:117 | a console line is appended to the output |
| Generator.NameInput | src/Commands/RepositoryCommand.php:34-37 | getNameInput has the trimmed argument's length and no '.'; NameInputSpec states it character by character |
| Generator.NameInputSpec | src/Commands/RepositoryCommand.php:34-37 | getNameInput is the trimmed argument with each '.' turned into '/': same length, no '.', no trimmable character at either end |
| Generator.NameInputIdempotent | src/Commands/ServiceCommand.php:37-40 | normalising a normalised name changes nothing |
| Generator.ReservedMessage | src/Commands/RepositoryCommand.php:52 | the reserved-name error is `The name "`, the name, and `" is reserved by PHP.`, 31 characters longer than the name |
| Generator.ExistenceChecked | src/Commands/RepositoryCommand.php:64-65 | no contract of its own: the existence check applies unless a force option is both declared and set; judged by both commands' Refusal and KeepsExistingClassFile |
| Generator.Refused | src/Commands/RepositoryCommand.php:51-71 | no contract of its own: a reserved name, or an existing class when the existence check applies; both commands' Refusal prove it is exactly when handle returns false |
| Generator.InterfaceFileName | src/Commands/RepositoryCommand.php:92 | the interface file name is the name followed by "Interface.php" |
| Generator.InterfaceDir | src/Commands/RepositoryCommand.php:93 | no contract of its own: `str_replace($name . '.php', 'Interfaces/', $path)`; judged by InterfaceDirOfMainPath and InterfaceDirReplacesEarlierOccurrence |
| Generator.InterfaceDirOfMainPath | src/Commands/RepositoryCommand.php:92-93 | for the path `<dir><name>.php` with the file name only at its end, the interface directory is `<dir>Interfaces/` |
| Generator.InterfaceDirReplacesEarlierOccurrence | src/Commands/RepositoryCommand.php:93 | an earlier `<name>.php` in the path is replaced by "Interfaces/" as well |
| Generator.FillStub | src/Commands/RepositoryCommand.php:166 | no contract of its own: replaceNamespace then replaceClass on the stub, both framework members taken as parameters; judged through RepositoryCommand.WritesClass and ServiceCommand.CreatesClass, which place its result in the class file |
| Generator.WriteInterface | src/Commands/RepositoryCommand.php:92-108 | for any path, the interface branch writes the sorted interface text at InterfaceDir(n, path) + `<n>Interface.php`, keeps every other file, makes that file's directory, touches neither calls nor output, and reports `<path>,<app path>` + InterfaceDir(n, path) |
| Generator.InterfacePathsAt | src/Commands/RepositoryCommand.php:92-108 | for `<dir><n>.php` with the file name only at its end, the interface file is `<dir>Interfaces/<n>Interface.php`, differs from the class file, and the reported path is `<path>,<app path><dir>Interfaces/` |
| Generator.Summary | src/Commands/RepositoryCommand.php:117 | the sprintf summary is the info, " [", the path and "] created successfully.", in that order, 25 characters longer than info and path |
| Generator.Conclude | src/Commands/RepositoryCommand.php:111-117 | the end of handle leaves files and directories alone, records the test creation exactly when the trait is used, and adds exactly one line, the summary, with " and test" exactly when the test was created |
| Generator.PutInterface | src/Commands/RepositoryCommand.php:92-108 | the interface steps against the host end in the state and reported path that WriteInterface gives |
| Generator.ReportCreated | src/Commands/RepositoryCommand.php:111-117 | the test and summary steps against the host end in the state that Conclude gives |
| Generator.WriteInterfaceAt | src/Commands/RepositoryCommand.php:92-108 | the interface file goes to `<dir>Interfaces/<name>Interface.php` and the reported path becomes `<path>,<app path><dir>Interfaces/` |
| RepositoryCommand.Stub.RelativePath | src/Commands/RepositoryCommand.php:215-243 | no contract of its own: the five stub files below `__DIR__`; judged by StubPathsDistinct and MainStubRows |
| RepositoryCommand.StubPath | src/Commands/RepositoryCommand.php:215-243 | no contract of its own: the six getters, `__DIR__` followed by the stub's relative path, `getStubRepository` returning what `getStub` does; judged by StubPathsDistinct and MainStubRows |
| RepositoryCommand.StubPathsDistinct | src/Commands/RepositoryCommand.php:215-243 | the five stub files (six getters, `getStubRepository` delegating to `getStub`) lie at five different paths |
| RepositoryCommand.ModelGiven | src/Commands/RepositoryCommand.php:75 | no contract of its own: PHP truthiness of `--m`, false for an absent option, "" and "0"; judged by FalsyModelIsAbsent |
| RepositoryCommand.WithModelOrNotStub | src/Commands/RepositoryCommand.php:138-148 | buildRepositoryWithModelOrNotClass always reads a ".interface" stub, the "-model" one exactly when a model is given, and never interface.stub |
| RepositoryCommand.WithInterfaceStub | src/Commands/RepositoryCommand.php:150-160 | buildRepositoryWithInterfaceClass never reads a ".interface" stub, reads the "-model" one exactly when a model is given, and never interface.stub |
| RepositoryCommand.MainStub | src/Commands/RepositoryCommand.php:127-160 | the class is never built from the interface stub |
| RepositoryCommand.MainStubRows | src/Commands/RepositoryCommand.php:127-160 | row by row, the class stub is `repository[-model][.interface].stub`: "-model" when a model is given, ".interface" when no interface is requested |
| RepositoryCommand.MainStubTable | src/Commands/RepositoryCommand.php:127-160 | the four flag combinations select four different stubs |
| RepositoryCommand.BuildRepositoryInterface | src/Commands/RepositoryCommand.php:162-167 | no contract of its own: interface.stub with namespace and class filled in; MainStub and StubPathsDistinct show the class is never built from that stub |
| RepositoryCommand.HasInvalidChar | src/Commands/RepositoryCommand.php:203 | the preg_match test holds exactly when some character lies outside [A-Za-z0-9_/\] |
| RepositoryCommand.ParseModel | src/Commands/RepositoryCommand.php:201-208 | parseModel throws "Model name contains invalid characters." exactly for a non-whitelisted character, and otherwise returns qualifyModel(model) |
| RepositoryCommand.ReplaceModel | src/Commands/RepositoryCommand.php:176-191 | replaceModel fails exactly when parseModel does, with parseModel's exception |
| RepositoryCommand.SubstituteModel | src/Commands/RepositoryCommand.php:180-190 | no contract of its own: the three replacements in order; judged by SubstituteModelRetiresAll, SubstituteModelClearsTokens and ReplaceModelValues |
| RepositoryCommand.SubstituteModelRetiresAll | src/Commands/RepositoryCommand.php:180-190 | after the three replacements in order no "{{" is left, given that every "{{" of the stub opened a model token and the model class has no '{' |
| RepositoryCommand.SubstituteModelClearsTokens | src/Commands/RepositoryCommand.php:180-190 | under the same conditions none of the three tokens remains |
| RepositoryCommand.ReplaceModelClearsTokens | src/Commands/RepositoryCommand.php:176-191 | replaceModel succeeds for a whitelisted model and leaves none of the three tokens in the stub |
| RepositoryCommand.ReplaceModelKeepsTokenFreeText | src/Commands/RepositoryCommand.php:176-191 | a stub without the tokens comes back unchanged |
| RepositoryCommand.ReplaceModelValues | src/Commands/RepositoryCommand.php:180-190 | for a model qualified as `namespace\Base` the values are the class, `Base`, and `Base` with its first letter lower-cased |
| RepositoryCommand.PlaceholderCanSurvive | src/Commands/RepositoryCommand.php:186-190 | "{{ {{ m }} }}" with the model `m` yields "{{ m }}": a token can survive a stub that breaks the "{{" condition |
| RepositoryCommand.DefaultNamespace | src/Commands/RepositoryCommand.php:251-254 | no contract of its own: the root namespace followed by `\Repositories`; judged by DefaultNamespaceSegment and Commands.DefaultNamespacesDiffer |
| RepositoryCommand.DefaultNamespaceSegment | src/Commands/RepositoryCommand.php:251-254 | the default namespace is the root followed by exactly `\Repositories`, so its last segment is "Repositories" |
| RepositoryCommand.BuildRepositoryClass | src/Commands/RepositoryCommand.php:127-136 | buildRepositoryClass fails exactly when --m is truthy and names a non-whitelisted character, and then with parseModel's exception; MainStubRows gives the stub it reads |
| RepositoryCommand.BuildAccepted | src/Commands/RepositoryCommand.php:127-136 | buildRepositoryClass does not throw for an absent or whitelisted model |
| RepositoryCommand.Generate | src/Commands/RepositoryCommand.php:73-117 | past the guards, handle never returns false: it returns null or throws |
| RepositoryCommand.Prepared | src/Commands/RepositoryCommand.php:74-82 | before the class file is written, only make:model (exactly when --m is truthy) and the class directory are added; files and output are unchanged |
| RepositoryCommand.Finish | src/Commands/RepositoryCommand.php:89-117 | no contract of its own: the optional interface branch, then Conclude; judged by FinishWithInterface, CreatesClass and CreatesClassAndInterfaceAnyPath |
| RepositoryCommand.FalsyModelIsAbsent | src/Commands/RepositoryCommand.php:73-77 | a run with an absent, empty or "0" --m ends in the same world and outcome as a run without --m |
| RepositoryCommand.Run | src/Commands/RepositoryCommand.php:46-118 | no contract of its own: handle as a function of the world, Handled applied to getNameInput; Handle is proved equal to it |
| RepositoryCommand.Handled | src/Commands/RepositoryCommand.php:51-117 | no contract of its own: the two guards, then Generate; judged by Refusal, KeepsExistingClassFile, RejectsModel, WritesClass, CreatesClass, CreatesClassAndInterfaceAnyPath and CreatesClassAndInterface |
| RepositoryCommand.Handle | src/Commands/RepositoryCommand.php:46-118 | handle's steps end in the world and outcome that Run gives |
| RepositoryCommand.Refusal | src/Commands/RepositoryCommand.php:51-71 | handle returns false exactly when the reserved-name or existence guard fires, and then only the error line is added |
| RepositoryCommand.KeepsExistingClassFile | src/Commands/RepositoryCommand.php:64-71 | without force, an existing class file is never overwritten |
| RepositoryCommand.RejectsModel | src/Commands/RepositoryCommand.php:73-87 | for an invalid model name, make:model is called and the directory made, no file is written, and the exception escapes |
| RepositoryCommand.WritesClass | src/Commands/RepositoryCommand.php:73-87 | past the guards with an accepted model, the class file is written and handle returns null |
| RepositoryCommand.CreatesClass | src/Commands/RepositoryCommand.php:82-117 | without --i exactly the class file changes; the calls and the summary line are stated, with " and test" exactly when the test was created |
| RepositoryCommand.FinishWithInterface | src/Commands/RepositoryCommand.php:89-117 | after the class file, --i writes the interface file, adds no other file, and the summary names `<path>,<app path><dir>Interfaces/` with " and interface" |
| RepositoryCommand.CreatesClassAndInterfaceAnyPath | src/Commands/RepositoryCommand.php:89-117 | with --i and any class path, the class file and the interface file at InterfaceDir(n, path) + `<n>Interface.php` are written, both directories made, the calls and the " and interface" summary naming `<path>,<app path>` + InterfaceDir(n, path) stated exactly |
| RepositoryCommand.CreatesClassAndInterface | src/Commands/RepositoryCommand.php:89-117 | with --i two distinct files are written and the summary names `<path>,<app path><dir>Interfaces/` |
| ServiceCommand.BuildServiceClass | src/Commands/ServiceCommand.php:123-133 | no contract of its own: the class stub MainStub picks, with namespace and class filled in; judged by MainStubRows |
| ServiceCommand.BuildServiceInterface | src/Commands/ServiceCommand.php:135-140 | no contract of its own: interface.stub with namespace and class filled in; MainStub and StubPathsDistinct show the class is never built from it |
| ServiceCommand.Stub.RelativePath | src/Commands/ServiceCommand.php:147-160 | no contract of its own: the three stub files below `__DIR__`; judged by StubPathsDistinct and MainStubRows |
| ServiceCommand.StubPath | src/Commands/ServiceCommand.php:147-160 | no contract of its own: the three getters, `__DIR__` followed by the stub's relative path; judged by StubPathsDistinct and MainStubRows |
| ServiceCommand.StubPathsDistinct | src/Commands/ServiceCommand.php:147-160 | the three stub getters return three different paths |
| ServiceCommand.MainStub | src/Commands/ServiceCommand.php:123-133 | the class is never built from the interface stub |
| ServiceCommand.MainStubRows | src/Commands/ServiceCommand.php:123-133 | the class stub is `service.interface.stub` with --i and `service.stub` otherwise, two different stubs |
| ServiceCommand.DefaultNamespace | src/Commands/ServiceCommand.php:168-171 | no contract of its own: the root namespace followed by `\Services`; judged by DefaultNamespaceSegment and Commands.DefaultNamespacesDiffer |
| ServiceCommand.DefaultNamespaceSegment | src/Commands/ServiceCommand.php:168-171 | the default namespace is the root followed by exactly `\Services`, so its last segment is "Services" |
| Commands.DefaultNamespacesDiffer | src/Commands/ServiceCommand.php:168-171 | a service default namespace never equals a repository default namespace |
| ServiceCommand.Run | src/Commands/ServiceCommand.php:49-115 | no contract of its own: handle as a function of the world, Handled applied to getNameInput; Handle is proved equal to it |
| ServiceCommand.Handled | src/Commands/ServiceCommand.php:54-114 | no contract of its own: the two guards, then Generate; judged by Refusal and KeepsExistingClassFile |
| ServiceCommand.Generate | src/Commands/ServiceCommand.php:79-114 | no contract of its own: the class directory and file, the interface branch and the summary; judged by CreatesClass, CreatesClassAndInterfaceAnyPath and CreatesClassAndInterface |
| ServiceCommand.Handle | src/Commands/ServiceCommand.php:49-115 | handle's steps end in the world and outcome that Run gives |
| ServiceCommand.Refusal | src/Commands/ServiceCommand.php:54-74 | handle returns false exactly when a guard fires, then only the error line is added; otherwise it returns null |
| ServiceCommand.KeepsExistingClassFile | src/Commands/ServiceCommand.php:67-74 | without force, an existing class file is never overwritten |
| ServiceCommand.CreatesClass | src/Commands/ServiceCommand.php:79-114 | without --i exactly the class file changes and the summary is "Service file [<path>] created successfully." (with " and test" when the test was created) |
| ServiceCommand.CreatesClassAndInterfaceAnyPath | src/Commands/ServiceCommand.php:79-114 | with --i and any class path, the class file from the ".interface" stub and the interface file at InterfaceDir(n, path) + `<n>Interface.php` are written, both directories made, the calls and the " and interface" summary naming `<path>,<app path>` + InterfaceDir(n, path) stated exactly |
| ServiceCommand.CreatesClassAndInterface | src/Commands/ServiceCommand.php:79-114 | with --i two distinct files are written, " and interface" is added and the summary names `<path>,<app path><dir>Interfaces/` |

## Left out

- GeneratorCommand members (`qualifyClass`, `getPath`, `isReservedName`, `alreadyExists`, `replaceNamespace`, `replaceClass`, `sortImports`, `qualifyModel`, `handleTestCreation`): their bodies are not part of this model. They are parameters.
- `parent::buildClass`: modelled as Laravel's "read the stub `getStub()` names, then fill in namespace and class". The code for it is not part of this model.
- Stub file contents: the text at a path is an arbitrary `readFile` function. A missing stub file (`FileNotFoundException`) is not modelled.
- `makeDirectory`: the directory is taken as `dirname(path)`, and `dirname` is a parameter. Parent directories created recursively are not tracked.
- `Artisan::call('make:model', …)` and the test creation are recorded as calls. What they write is not modelled.
- Console channels (`components->error` against `error`, `info`), the `$signature` strings and `getOptions` are left out. Only the message text and the parsed flags are modelled, including whether a force option is declared.
- The `CreatesMatchingTest` trait check is a boolean parameter. The trait is not defined in the package.
- `$this->laravel['path']` is an opaque string. It is likely that `getPath` already starts with it, so the reported interface path would repeat it. This cannot be shown without Laravel's `getPath`.
- src/DesignPatternProvider.php only registers the commands, so it is not part of this model.
- Strings are sequences of characters, while PHP's `trim`, `lcfirst`, `str_replace` and `preg_match` work on bytes. For UTF-8 text the results agree: every character the code searches for, trims or lower-cases is ASCII, UTF-8 is self-synchronising so an ASCII byte never occurs inside a multi-byte character, and every non-ASCII byte lies outside the model-name whitelist just as every non-ASCII character does.
- RepositoryCommand.ReplaceModelClearsTokens: "no token remains" is proved only for stubs in which every "{{" opens one of the three tokens, because it is false without that condition (`PlaceholderCanSurvive`).
