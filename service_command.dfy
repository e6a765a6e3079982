/** make:service — writes a service class, optionally with an interface
    (--i). */
module ServiceCommand {
  import opened PhpStrings
  import opened Generator

  /** $type, the word the messages use for the generated artifact. */
  const Type := "Service file"

  /** The command's stub files. */
  datatype Stub = Service | ServiceInterface | Interface {

    /** The stub's path below the commands' directory. */
    function RelativePath(): string {
      match this
      case Service => "/Stubs/service/service.stub"
      case ServiceInterface => "/Stubs/service/service.interface.stub"
      case Interface => "/Stubs/service/interface.stub"
    }
  }

  /** getStub, getRepositoryInterfaceStub and getInterfaceStub:
      `__DIR__ . <relative path>`. */
  function StubPath(fw: Framework, stub: Stub): string {
    fw.commandDir + stub.RelativePath()
  }

  /** Distinct stubs live at distinct paths. */
  lemma StubPathsDistinct(fw: Framework, a: Stub, b: Stub)
    ensures StubPath(fw, a) == StubPath(fw, b) <==> a == b
  {
    if StubPath(fw, a) == StubPath(fw, b) {
      assert a.RelativePath() == StubPath(fw, a)[|fw.commandDir|..];
      assert b.RelativePath() == StubPath(fw, b)[|fw.commandDir|..];
    }
  }

  /** The main class's stub as buildServiceClass chooses it. */
  function MainStub(isInterface: bool): (stub: Stub)
    ensures stub != Interface
  {
    if isInterface then ServiceInterface else Service
  }

  /** The decision table row by row: buildServiceWithInterfaceClass reads
      the ".interface" stub, and GeneratorCommand::buildClass reads the one
      getStub names. */
  lemma MainStubRows(fw: Framework)
    ensures StubPath(fw, MainStub(true)) == fw.commandDir + "/Stubs/service/service.interface.stub"
    ensures StubPath(fw, MainStub(false)) == fw.commandDir + "/Stubs/service/service.stub"
    ensures MainStub(true) != MainStub(false)
  {
  }

  /** buildServiceClass($name, $isInterface). Both branches read a stub
      and fill in namespace and class once. */
  function BuildServiceClass(fw: Framework, name: string, isInterface: bool): string {
    FillStub(fw, fw.readFile(StubPath(fw, MainStub(isInterface))), name)
  }

  /** buildServiceInterface($name). */
  function BuildServiceInterface(fw: Framework, name: string): string {
    FillStub(fw, fw.readFile(StubPath(fw, Interface)), name)
  }

  /** getDefaultNamespace($rootNamespace). */
  function DefaultNamespace(rootNamespace: string): string {
    rootNamespace + "\\Services"
  }

  /** The default namespace is a "Services" segment below the root. */
  lemma DefaultNamespaceSegment(rootNamespace: string)
    ensures ClassBasename(DefaultNamespace(rootNamespace)) == "Services"
    ensures DefaultNamespace(rootNamespace)[..|rootNamespace|] == rootNamespace
    ensures DefaultNamespace(rootNamespace)[|rootNamespace|..] == "\\Services"
  {
    assert DefaultNamespace(rootNamespace) == rootNamespace + "\\" + "Services";
    ClassBasenameOfQualified(rootNamespace, '\\', "Services");
  }

  /** The parsed command line: the name argument, --i, and whether a force
      option is declared and set. */
  datatype Input = Input(name: string, isInterface: bool, hasForceOption: bool, force: bool)

  /** handle() as a function of the world before the run. */
  function Run(w: World, fw: Framework, input: Input): (World, Outcome) {
    Handled(w, fw, input, NameInput(input.name))
  }

  /** handle() once the name argument is normalised to `n`: the two guards,
      then Generate. */
  function Handled(w: World, fw: Framework, input: Input, n: string): (World, Outcome) {
    if fw.isReservedName(n) then
      (w.Report(Error(ReservedMessage(n))), ReturnedFalse)
    else if ExistenceChecked(input.hasForceOption, input.force) && fw.alreadyExists(n) then
      (w.Report(Error(Type + " already exists!")), ReturnedFalse)
    else
      (Generate(w, fw, input.isInterface, n), ReturnedNull)
  }

  /** handle() past its guards, for the normalised name `n`: the class
      directory and file, then the interface and the summary. */
  function Generate(w: World, fw: Framework, isInterface: bool, n: string): World {
    var name := fw.qualifyClass(n);
    var path := fw.getPath(name);
    var written := w.MakeDirectory(fw, path).Put(path, fw.sortImports(BuildServiceClass(fw, name, isInterface)));
    if isInterface then
      var (w', reported) := WriteInterface(written, fw, n, path, BuildServiceInterface(fw, n));
      Conclude(w', fw, Type + " and interface", reported)
    else
      Conclude(written, fw, Type, path)
  }

  /** handle(), step by step against the host. */
  method Handle(host: Host, fw: Framework, input: Input) returns (outcome: Outcome)
    modifies host
    ensures (host.State(), outcome) == Run(old(host.State()), fw, input)
  {
    ghost var start := host.State();
    var n := NameInput(input.name);
    assert Run(start, fw, input) == Handled(start, fw, input, n);
    if fw.isReservedName(n) {
      host.Report(Error(ReservedMessage(n)));
      return ReturnedFalse;
    }
    var name := fw.qualifyClass(n);
    var path := fw.getPath(name);
    if ExistenceChecked(input.hasForceOption, input.force) && fw.alreadyExists(n) {
      host.Report(Error(Type + " already exists!"));
      return ReturnedFalse;
    }
    host.MakeDirectory(fw, path);
    var isInterface := input.isInterface;
    host.Put(path, fw.sortImports(BuildServiceClass(fw, name, isInterface)));
    var info := Type;
    if isInterface {
      path := PutInterface(host, fw, n, path, BuildServiceInterface(fw, n));
      info := info + " and interface";
    }
    ReportCreated(host, fw, info, path);
    return ReturnedNull;
  }

  /** handle() returns false exactly when one of its guards fires, and then
      it only writes the guard's error line: no file, directory or call;
      otherwise it returns null. */
  lemma Refusal(w: World, fw: Framework, input: Input, n: string)
    ensures var (w', outcome) := Handled(w, fw, input, n);
      (outcome == ReturnedFalse <==> Refused(fw, n, input.hasForceOption, input.force))
      && (outcome != ReturnedFalse ==> outcome == ReturnedNull)
      && (fw.isReservedName(n) ==>
            w' == w.(output := w.output + [Error("The name \"" + n + "\" is reserved by PHP.")]))
      && (!fw.isReservedName(n) && Refused(fw, n, input.hasForceOption, input.force) ==>
            w' == w.(output := w.output + [Error(Type + " already exists!")]))
  {
  }

  /** With the existence check in force and an existence test that agrees
      with the files, an existing class file is never overwritten. */
  lemma KeepsExistingClassFile(w: World, fw: Framework, input: Input, n: string)
    requires ExistenceChecked(input.hasForceOption, input.force)
    requires fw.alreadyExists(n) <==> fw.getPath(fw.qualifyClass(n)) in w.files
    requires fw.getPath(fw.qualifyClass(n)) in w.files
    ensures Handled(w, fw, input, n).0.files == w.files
    ensures Handled(w, fw, input, n).1 == ReturnedFalse
  {
    Refusal(w, fw, input, n);
  }

  /** Without --i exactly one file is written, the class file at getPath,
      and the summary line names that path. */
  lemma CreatesClass(w: World, fw: Framework, input: Input, n: string)
    requires !Refused(fw, n, input.hasForceOption, input.force)
    requires !input.isInterface
    ensures var path := fw.getPath(fw.qualifyClass(n));
      var (w', outcome) := Handled(w, fw, input, n);
      var tested := fw.usesMatchingTest && fw.handleTestCreation(path);
      outcome == ReturnedNull
      && w'.files == w.files[path := fw.sortImports(BuildServiceClass(fw, fw.qualifyClass(n), false))]
      && w'.dirs == w.dirs + {fw.dirname(path)}
      && w'.calls == w.calls + (if fw.usesMatchingTest then [CreateTest(path)] else [])
      && w'.output == w.output + [Info(Summary(if tested then Type + " and test" else Type, path))]
  {
  }

  /** With --i, for any class path: two files are written, the class file
      from the ".interface" stub and the interface file below InterfaceDir,
      and the summary line names the class file and the interface directory
      below the app path. */
  lemma CreatesClassAndInterfaceAnyPath(w: World, fw: Framework, input: Input, n: string)
    requires !Refused(fw, n, input.hasForceOption, input.force)
    requires input.isInterface
    ensures var path := fw.getPath(fw.qualifyClass(n));
      var dir := InterfaceDir(n, path);
      var interfaceFile := dir + InterfaceFileName(n);
      var reported := path + "," + (fw.appPath + dir);
      var (w', outcome) := Handled(w, fw, input, n);
      var tested := fw.usesMatchingTest && fw.handleTestCreation(reported);
      outcome == ReturnedNull
      && w'.files == w.files[path := fw.sortImports(BuildServiceClass(fw, fw.qualifyClass(n), true))]
                            [interfaceFile := fw.sortImports(BuildServiceInterface(fw, n))]
      && w'.dirs == w.dirs + {fw.dirname(path), fw.dirname(interfaceFile)}
      && w'.calls == w.calls + (if fw.usesMatchingTest then [CreateTest(reported)] else [])
      && w'.output == w.output + [Info(Summary(
           if tested then Type + " and interface" + " and test" else Type + " and interface", reported))]
  {
  }

  /** With --i, when the class file is `<dir><name>.php` and that file name
      does not occur earlier in the path, two files are written: the class
      file from the ".interface" stub and
      `<dir>Interfaces/<name>Interface.php`; the summary line names the class
      file and the interface directory below the app path. */
  lemma CreatesClassAndInterface(w: World, fw: Framework, input: Input, n: string, dir: string)
    requires !Refused(fw, n, input.hasForceOption, input.force)
    requires input.isInterface
    requires fw.getPath(fw.qualifyClass(n)) == dir + (n + ".php")
    requires forall i: nat :: i < |dir| ==> !StartsAt(dir + (n + ".php"), i, n + ".php")
    ensures var path := fw.getPath(fw.qualifyClass(n));
      var interfaceFile := dir + "Interfaces/" + n + "Interface.php";
      var reported := path + "," + fw.appPath + dir + "Interfaces/";
      var (w', outcome) := Handled(w, fw, input, n);
      var tested := fw.usesMatchingTest && fw.handleTestCreation(reported);
      interfaceFile != path
      && outcome == ReturnedNull
      && w'.files == w.files[path := fw.sortImports(BuildServiceClass(fw, fw.qualifyClass(n), true))]
                            [interfaceFile := fw.sortImports(BuildServiceInterface(fw, n))]
      && w'.dirs == w.dirs + {fw.dirname(path), fw.dirname(interfaceFile)}
      && w'.calls == w.calls + (if fw.usesMatchingTest then [CreateTest(reported)] else [])
      && w'.output == w.output + [Info(Summary(
           if tested then Type + " and interface" + " and test" else Type + " and interface", reported))]
  {
    CreatesClassAndInterfaceAnyPath(w, fw, input, n);
    InterfacePathsAt(dir, n, fw.appPath);
  }
}
