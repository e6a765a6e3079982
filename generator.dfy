/** What the two scaffolding commands share: the members they inherit from
    Laravel's GeneratorCommand (left abstract), the world a command acts on
    (files, directories, foreign calls, console lines), the normalised name
    argument, the interface path derived from the main path, and the summary
    line. */
module Generator {
  import opened Wrappers
  import opened PhpStrings

  /** The framework members and services a command relies on without their
      bodies being part of this model. Each is an arbitrary function chosen by
      the caller, and every property proved holds for any such functions that
      meet the lemma's `requires`. */
  datatype Framework = Framework(
    isReservedName: string -> bool,
    qualifyClass: string -> string,
    getPath: string -> string,
    alreadyExists: string -> bool,
    replaceNamespace: (string, string) -> string,
    replaceClass: (string, string) -> string,
    sortImports: string -> string,
    qualifyModel: string -> string,
    /** PHP dirname, used by makeDirectory. */
    dirname: string -> string,
    /** $this->files->get: the text of a stub file, chosen by its path. */
    readFile: string -> string,
    /** __DIR__ of the command classes. */
    commandDir: string,
    /** $this->laravel['path']. */
    appPath: string,
    /** Whether CreatesMatchingTest is among the command's traits. */
    usesMatchingTest: bool,
    handleTestCreation: string -> bool
  )

  /** `replaceNamespace($stub, $name)->replaceClass($stub, $name)`: the
      namespace is replaced in the stub, then the class in that result. */
  function FillStub(fw: Framework, stub: string, name: string): string {
    fw.replaceClass(fw.replaceNamespace(stub, name), name)
  }

  /** The exceptions the modelled code throws. */
  datatype Exception = InvalidArgument(message: string)

  /** How handle() ends: `return false`, falling off the end (null), or an
      exception thrown out of it. */
  datatype Outcome = ReturnedFalse | ReturnedNull | Threw(error: Exception)

  /** A foreign command invocation, recorded rather than carried out. */
  datatype Call = MakeModel(name: string) | CreateTest(path: string)

  datatype Line = Error(text: string) | Info(text: string)

  /** Everything a command run can change: file contents by path, the
      directories made, the foreign calls made and the console lines written. */
  datatype World = World(files: map<string, string>, dirs: set<string>, calls: seq<Call>, output: seq<Line>) {

    /** makeDirectory($path): the directory holding `path` exists afterwards. */
    function MakeDirectory(fw: Framework, path: string): World {
      this.(dirs := dirs + {fw.dirname(path)})
    }

    function Put(path: string, content: string): World {
      this.(files := files[path := content])
    }

    function Invoke(c: Call): World {
      this.(calls := calls + [c])
    }

    function Report(line: Line): World {
      this.(output := output + [line])
    }
  }

  /** The world as the commands see it, changed in place step by step. */
  class Host {
    var files: map<string, string>
    var dirs: set<string>
    var calls: seq<Call>
    var output: seq<Line>

    function State(): World
      reads this
    {
      World(files, dirs, calls, output)
    }

    constructor (w: World)
      ensures State() == w
    {
      files, dirs, calls, output := w.files, w.dirs, w.calls, w.output;
    }

    /** GeneratorCommand::makeDirectory: creates dirname($path) unless it is
        already a directory. */
    method MakeDirectory(fw: Framework, path: string)
      modifies this
      ensures State() == old(State()).MakeDirectory(fw, path)
    {
      var dir := fw.dirname(path);
      if dir !in dirs {
        dirs := dirs + {dir};
      }
    }

    /** $this->files->put($path, $content). */
    method Put(path: string, content: string)
      modifies this
      ensures State() == old(State()).Put(path, content)
    {
      files := files[path := content];
    }

    method Invoke(c: Call)
      modifies this
      ensures State() == old(State()).Invoke(c)
    {
      calls := calls + [c];
    }

    method Report(line: Line)
      modifies this
      ensures State() == old(State()).Report(line)
    {
      output := output + [line];
    }
  }

  /** getNameInput(): the trimmed name argument with every '.' turned into
      '/'. Both commands override it in the same way. */
  function NameInput(argument: string): (n: string)
    ensures |n| == |Trim(argument)| && '.' !in n
  {
    StrReplaceChar(Trim(argument), '.', '/');
    StrReplace(Trim(argument), ".", "/")
  }

  /** The normalised name is the trimmed argument, character for character,
      except that each '.' has become '/': same length, no '.' left, and no
      whitespace at either end. */
  lemma NameInputSpec(argument: string)
    ensures var t, n := Trim(argument), NameInput(argument);
      |n| == |t|
      && (forall i :: 0 <= i < |n| ==> n[i] == (if t[i] == '.' then '/' else t[i]))
      && '.' !in n
      && (n == [] || (!IsTrimmed(n[0]) && !IsTrimmed(n[|n| - 1])))
  {
    var t, n := Trim(argument), NameInput(argument);
    StrReplaceChar(t, '.', '/');
    assert forall i :: 0 <= i < |n| ==> n[i] == (if t[i] == '.' then '/' else t[i]);
    if n != [] {
      assert n[0] == '/' || n[0] == t[0];
      assert n[|n| - 1] == '/' || n[|n| - 1] == t[|n| - 1];
    }
  }

  /** Normalising a normalised name changes nothing. */
  lemma NameInputIdempotent(argument: string)
    ensures NameInput(NameInput(argument)) == NameInput(argument)
  {
    var n := NameInput(argument);
    NameInputSpec(argument);
    TrimOfTrimmed(n);
    DotFreeUnchanged(n);
  }

  /** A text without '.' is left as it is by the '.'-to-'/' replacement. */
  lemma DotFreeUnchanged(s: string)
    requires '.' !in s
    ensures StrReplace(s, ".", "/") == s
  {
    StrReplaceChar(s, '.', '/');
    var r := StrReplace(s, ".", "/");
    forall i | 0 <= i < |s| ensures r[i] == s[i] {
      assert s[i] != '.';
    }
  }

  /** The error line for a reserved name: the name, quoted, inside a fixed
      text. */
  function ReservedMessage(n: string): (m: string)
    ensures |m| == |n| + 31
    ensures m[..10] == "The name \"" && m[10..10 + |n|] == n
    ensures m[10 + |n|..] == "\" is reserved by PHP."
  {
    "The name \"" + n + "\" is reserved by PHP."
  }

  /** The existence check is skipped only when a force option is declared and
      set. */
  predicate ExistenceChecked(hasForceOption: bool, force: bool) {
    !hasForceOption || !force
  }

  /** The two guards at the top of handle(): a reserved name, or an
      existing class file when the existence check applies. */
  predicate Refused(fw: Framework, n: string, hasForceOption: bool, force: bool) {
    fw.isReservedName(n) || (ExistenceChecked(hasForceOption, force) && fw.alreadyExists(n))
  }

  /** `$name . 'Interface.php'`. */
  function InterfaceFileName(n: string): (f: string)
    ensures |f| == |n| + 13 && f[..|n|] == n && f[|n|..] == "Interface.php"
  {
    n + "Interface.php"
  }

  /** `str_replace($name . '.php', 'Interfaces/', $path)`: the directory the
      interface file is written to. */
  function InterfaceDir(n: string, path: string): string {
    StrReplace(path, n + ".php", "Interfaces/")
  }

  /** When the main path is `prefix` followed by the class file name, and
      that file name does not also start earlier in the path, the interface
      goes to `prefix` + "Interfaces/". */
  lemma InterfaceDirOfMainPath(prefix: string, n: string)
    requires forall i: nat :: i < |prefix| ==> !StartsAt(prefix + (n + ".php"), i, n + ".php")
    ensures InterfaceDir(n, prefix + (n + ".php")) == prefix + "Interfaces/"
  {
    var file := n + ".php";
    StrReplaceAfterPrefix(prefix, file, file, "Interfaces/");
    assert StartsAt(file, 0, file);
    StrReplaceFront(file, file, "Interfaces/");
    assert file[|file|..] == [];
  }

  /** For the main path `<dir><n>.php` with the file name only at its end,
      the interface file is `<dir>Interfaces/<n>Interface.php`, a different
      path, and the reported path is "<path>,<app path><dir>Interfaces/". */
  lemma InterfacePathsAt(dir: string, n: string, appPath: string)
    requires forall i: nat :: i < |dir| ==> !StartsAt(dir + (n + ".php"), i, n + ".php")
    ensures var path := dir + (n + ".php");
      var file := dir + "Interfaces/" + n + "Interface.php";
      InterfaceDir(n, path) + InterfaceFileName(n) == file
      && file != path
      && path + "," + (appPath + InterfaceDir(n, path)) == path + "," + appPath + dir + "Interfaces/"
  {
    var path := dir + (n + ".php");
    InterfaceDirOfMainPath(dir, n);
    assert |dir + "Interfaces/" + n + "Interface.php"| != |path|;
  }

  /** Every occurrence of the class file name in the path is replaced: when
      it also appears earlier, the interface directory differs from the main
      file's directory in that earlier place as well. */
  lemma InterfaceDirReplacesEarlierOccurrence(front: string, middle: string, n: string)
    requires forall i: nat :: i < |front| ==> !StartsAt(front + (n + ".php"), i, n + ".php")
    requires forall i: nat :: i < |middle| ==> !StartsAt(middle + (n + ".php"), i, n + ".php")
    ensures InterfaceDir(n, front + (n + ".php") + middle + (n + ".php"))
         == front + "Interfaces/" + middle + "Interfaces/"
  {
    var file := n + ".php";
    var tail := file + (middle + file);
    assert front + file + middle + file == front + tail;
    assert front + tail == (front + file) + (middle + file);
    forall i: nat | i < |front| ensures !StartsAt(front + tail, i, file) {
      StartsAtInPrefix(front + file, middle + file, i, file);
    }
    StrReplaceAfterPrefix(front, tail, file, "Interfaces/");
    assert StartsAt(tail, 0, file);
    StrReplaceFront(tail, file, "Interfaces/");
    assert tail[|file|..] == middle + file;
    InterfaceDirOfMainPath(middle, n);
  }

  /** sprintf('%s [%s] created successfully.', $info, $path). */
  function Summary(info: string, path: string): (line: string)
    ensures |line| == |info| + |path| + 25
    ensures line[..|info|] == info
    ensures line[|info|..|info| + 2] == " ["
    ensures line[|info| + 2..|info| + 2 + |path|] == path
    ensures line[|info| + 2 + |path|..] == "] created successfully."
  {
    info + " [" + path + "] created successfully."
  }

  /** The interface branch of handle(): make the directory, write the
      interface file, and widen the reported path to "<path>,<app path><dir>". */
  function WriteInterface(w: World, fw: Framework, n: string, path: string, content: string): (r: (World, string))
    ensures var file := InterfaceDir(n, path) + InterfaceFileName(n);
      r.0 == World(w.files[file := fw.sortImports(content)], w.dirs + {fw.dirname(file)}, w.calls, w.output)
    ensures r.0.files.Keys == w.files.Keys + {InterfaceDir(n, path) + InterfaceFileName(n)}
    ensures r.1 == path + "," + (fw.appPath + InterfaceDir(n, path))
    ensures |path| < |r.1| && r.1[..|path| + 1] == path + ","
  {
    var dir := InterfaceDir(n, path);
    var file := dir + InterfaceFileName(n);
    (w.MakeDirectory(fw, file).Put(file, fw.sortImports(content)), path + "," + (fw.appPath + dir))
  }

  /** The interface branch of handle() against the host; returns the
      widened path to report. */
  method PutInterface(host: Host, fw: Framework, n: string, path: string, content: string) returns (reported: string)
    modifies host
    ensures (host.State(), reported) == WriteInterface(old(host.State()), fw, n, path, content)
  {
    var interfaceName := InterfaceFileName(n);
    var interfacePath := InterfaceDir(n, path);
    host.MakeDirectory(fw, interfacePath + interfaceName);
    host.Put(interfacePath + interfaceName, fw.sortImports(content));
    interfacePath := fw.appPath + interfacePath;
    reported := path + "," + interfacePath;
  }

  /** For a main path `<dir><name>.php` whose file name occurs only at its
      end, the interface goes to `<dir>Interfaces/<name>Interface.php` and the
      reported paths are the main path and `<app path><dir>Interfaces/`. */
  lemma WriteInterfaceAt(w: World, fw: Framework, n: string, dir: string, content: string)
    requires forall i: nat :: i < |dir| ==> !StartsAt(dir + (n + ".php"), i, n + ".php")
    ensures var file := dir + "Interfaces/" + n + "Interface.php";
      WriteInterface(w, fw, n, dir + (n + ".php"), content)
        == (w.MakeDirectory(fw, file).Put(file, fw.sortImports(content)),
            dir + (n + ".php") + "," + fw.appPath + dir + "Interfaces/")
  {
    InterfaceDirOfMainPath(dir, n);
    var file := dir + "Interfaces/" + n + "Interface.php";
    assert file == InterfaceDir(n, dir + (n + ".php")) + InterfaceFileName(n);
    var front := dir + (n + ".php") + ",";
    assert front + (fw.appPath + (dir + "Interfaces/")) == front + fw.appPath + dir + "Interfaces/";
  }

  /** The end of handle(): the optional test creation and the summary line. */
  function Conclude(w: World, fw: Framework, info: string, reported: string): (r: World)
    ensures r.files == w.files && r.dirs == w.dirs
    ensures r.calls == w.calls + (if fw.usesMatchingTest then [CreateTest(reported)] else [])
    ensures r.output == w.output + [Info(Summary(
      if fw.usesMatchingTest && fw.handleTestCreation(reported) then info + " and test" else info, reported))]
  {
    if fw.usesMatchingTest then
      var info' := if fw.handleTestCreation(reported) then info + " and test" else info;
      w.Invoke(CreateTest(reported)).Report(Info(Summary(info', reported)))
    else
      w.Report(Info(Summary(info, reported)))
  }

  /** The end of handle() against the host: the optional test creation and
      the summary line. */
  method ReportCreated(host: Host, fw: Framework, info: string, path: string)
    modifies host
    ensures host.State() == Conclude(old(host.State()), fw, info, path)
  {
    var message := info;
    if fw.usesMatchingTest {
      host.Invoke(CreateTest(path));
      if fw.handleTestCreation(path) {
        message := message + " and test";
      }
    }
    host.Report(Info(Summary(message, path)));
  }
}
