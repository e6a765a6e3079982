/** make:repository — writes a repository class, optionally bound to a model
    (--m) and optionally with an interface (--i). */
module RepositoryCommand {
  import opened Wrappers
  import opened PhpStrings
  import opened Placeholders
  import opened Generator

  /** $type, the word the messages use for the generated artifact. */
  const Type := "Repository file"

  /** The command's stub files. */
  datatype Stub = Repository | RepositoryModel | RepositoryInterface | RepositoryModelInterface | Interface {

    /** The "-model" stubs, read when --m is given. */
    predicate ForModel() {
      this == RepositoryModel || this == RepositoryModelInterface
    }

    /** The ".interface" stubs. */
    predicate InterfaceVariant() {
      this == RepositoryInterface || this == RepositoryModelInterface
    }

    /** The stub's path below the commands' directory. */
    function RelativePath(): string {
      match this
      case Repository => "/Stubs/repository/repository.stub"
      case RepositoryModel => "/Stubs/repository/repository-model.stub"
      case RepositoryInterface => "/Stubs/repository/repository.interface.stub"
      case RepositoryModelInterface => "/Stubs/repository/repository-model.interface.stub"
      case Interface => "/Stubs/repository/interface.stub"
    }
  }

  /** The six stub getters: `__DIR__ . <relative path>`. */
  function StubPath(fw: Framework, stub: Stub): string {
    fw.commandDir + stub.RelativePath()
  }

  /** Distinct stubs live at distinct paths. */
  lemma StubPathsDistinct(fw: Framework, a: Stub, b: Stub)
    ensures StubPath(fw, a) == StubPath(fw, b) <==> a == b
  {
    if StubPath(fw, a) == StubPath(fw, b) {
      assert a.RelativePath() == StubPath(fw, a)[|fw.commandDir|..];
      assert b.RelativePath() == StubPath(fw, b)[|fw.commandDir|..];
    }
  }

  /** `if ($model)` on the --m option: PHP treats null, "" and "0" as false. */
  predicate ModelGiven(model: Option<string>) {
    model.Some? && model.value != "" && model.value != "0"
  }

  /** The stub buildRepositoryWithInterfaceClass reads: never an
      ".interface" stub, the "-model" one exactly when --m is given. */
  function WithInterfaceStub(hasModel: bool): (stub: Stub)
    ensures stub.ForModel() == hasModel && !stub.InterfaceVariant() && stub != Interface
  {
    if hasModel then RepositoryModel else Repository
  }

  /** The stub buildRepositoryWithModelOrNotClass reads: always an
      ".interface" stub, the "-model" one exactly when --m is given. */
  function WithModelOrNotStub(hasModel: bool): (stub: Stub)
    ensures stub.ForModel() == hasModel && stub.InterfaceVariant() && stub != Interface
  {
    if hasModel then RepositoryModelInterface else RepositoryInterface
  }

  /** The main class's stub as buildRepositoryClass chooses it. */
  function MainStub(isInterface: bool, hasModel: bool): (stub: Stub)
    ensures stub != Interface
  {
    if isInterface then WithInterfaceStub(hasModel) else WithModelOrNotStub(hasModel)
  }

  /** The decision table row by row: the model flag selects the "-model"
      variant, and the ".interface" variant is the one used when NO
      interface is requested. */
  lemma MainStubRows(fw: Framework)
    ensures StubPath(fw, MainStub(true, true)) == fw.commandDir + "/Stubs/repository/repository-model.stub"
    ensures StubPath(fw, MainStub(true, false)) == fw.commandDir + "/Stubs/repository/repository.stub"
    ensures StubPath(fw, MainStub(false, true)) == fw.commandDir + "/Stubs/repository/repository-model.interface.stub"
    ensures StubPath(fw, MainStub(false, false)) == fw.commandDir + "/Stubs/repository/repository.interface.stub"
  {
  }

  /** The decision table is one-to-one: each flag combination has its own
      main stub, and none of them is the interface stub. */
  lemma MainStubTable(i1: bool, m1: bool, i2: bool, m2: bool)
    ensures MainStub(i1, m1) == MainStub(i2, m2) <==> i1 == i2 && m1 == m2
  {
  }

  /** buildRepositoryInterface($name). */
  function BuildRepositoryInterface(fw: Framework, name: string): string {
    FillStub(fw, fw.readFile(StubPath(fw, Interface)), name)
  }

  /** A model name character as the whitelist [A-Za-z0-9_/\\] has it. */
  predicate ModelNameChar(c: char) {
    'A' <= c <= 'Z' || 'a' <= c <= 'z' || '0' <= c <= '9' || c == '_' || c == '/' || c == '\\'
  }

  /** preg_match('([^A-Za-z0-9_/\\\\])', $model): some character of the
      model name lies outside the whitelist. */
  function HasInvalidChar(model: string): (found: bool)
    ensures found <==> exists i :: 0 <= i < |model| && !ModelNameChar(model[i])
  {
    if model == [] then false
    else if !ModelNameChar(model[0]) then true
    else
      assert forall i :: 1 <= i < |model| ==> model[i] == model[1..][i - 1];
      HasInvalidChar(model[1..])
  }

  const InvalidModelName := InvalidArgument("Model name contains invalid characters.")

  /** parseModel($model): the qualified model class, or the exception for a
      name with a character outside the whitelist. */
  function ParseModel(fw: Framework, model: string): (r: Result<string, Exception>)
    ensures r.Failure? <==> exists i :: 0 <= i < |model| && !ModelNameChar(model[i])
    ensures r.Failure? ==> r.error == InvalidModelName
    ensures r.Success? ==> r.value == fw.qualifyModel(model)
  {
    if HasInvalidChar(model) then Failure(InvalidModelName) else Success(fw.qualifyModel(model))
  }

  const NamespacedModelToken := "{{ namespacedModel }}"
  const ModelToken := "{{ m }}"
  const ModelVariableToken := "{{ modelVariable }}"

  /** The three tokens replaceModel fills. */
  function ModelTokens(): set<string> {
    {NamespacedModelToken, ModelToken, ModelVariableToken}
  }

  /** The str_replace with three search/replace pairs in replaceModel: each
      pair is applied to the result of the previous one. */
  function SubstituteModel(stub: string, modelClass: string): string {
    var base := ClassBasename(modelClass);
    StrReplace(
      StrReplace(
        StrReplace(stub, NamespacedModelToken, modelClass),
        ModelToken, base),
      ModelVariableToken, Lcfirst(base))
  }

  /** replaceModel($stub, $model). */
  function ReplaceModel(fw: Framework, stub: string, model: string): (r: Result<string, Exception>)
    ensures r.Failure? <==> exists i :: 0 <= i < |model| && !ModelNameChar(model[i])
    ensures r.Failure? ==> r.error == InvalidModelName
  {
    match ParseModel(fw, model)
    case Failure(e) => Failure(e)
    case Success(modelClass) => Success(SubstituteModel(stub, modelClass))
  }

  /** buildRepositoryClass($name, $isInterface): the main class text, or the
      exception parseModel throws. */
  function BuildRepositoryClass(fw: Framework, name: string, isInterface: bool, model: Option<string>)
    : (r: Result<string, Exception>)
    ensures r.Failure? <==> ModelGiven(model) && exists i :: 0 <= i < |model.value| && !ModelNameChar(model.value[i])
    ensures r.Failure? ==> r.error == InvalidModelName
  {
    var stub := FillStub(fw, fw.readFile(StubPath(fw, MainStub(isInterface, ModelGiven(model)))), name);
    if ModelGiven(model) then ReplaceModel(fw, stub, model.value) else Success(FillStub(fw, stub, name))
  }

  /** Each model token opens with "{{" and has no other '{'. */
  lemma ModelTokensShaped()
    ensures forall t :: t in ModelTokens() ==> TokenShaped(t)
  {
    assert TokenShaped(NamespacedModelToken);
    assert TokenShaped(ModelToken);
    assert TokenShaped(ModelVariableToken);
  }

  /** No '{' in a class name means none in its basename or its lcfirst. */
  lemma BasenameBraceFree(modelClass: string)
    requires '{' !in modelClass
    ensures '{' !in ClassBasename(modelClass)
    ensures '{' !in Lcfirst(ClassBasename(modelClass))
  {
    var b := ClassBasename(modelClass);
    var l := Lcfirst(b);
    forall k | 0 <= k < |l| ensures l[k] != '{' {
      if k == 0 {
        assert l[0] == LowerAscii(b[0]);
      } else {
        assert l[k] == l[1..][k - 1] == b[1..][k - 1] == b[k];
      }
    }
  }

  /** The first replacement retires "{{ namespacedModel }}". */
  lemma RetireNamespacedModel(s: string, v: string)
    requires '{' !in v && BracesOpenOnly(s, ModelTokens())
    ensures BracesOpenOnly(StrReplace(s, NamespacedModelToken, v), {ModelToken, ModelVariableToken})
  {
    ModelTokensShaped();
    ReplaceRetiresToken(s, NamespacedModelToken, v, ModelTokens());
    assert ModelTokens() - {NamespacedModelToken} == {ModelToken, ModelVariableToken};
  }

  /** The second replacement retires "{{ m }}". */
  lemma RetireModel(s: string, v: string)
    requires '{' !in v && BracesOpenOnly(s, {ModelToken, ModelVariableToken})
    ensures BracesOpenOnly(StrReplace(s, ModelToken, v), {ModelVariableToken})
  {
    ModelTokensShaped();
    ReplaceRetiresToken(s, ModelToken, v, {ModelToken, ModelVariableToken});
    assert {ModelToken, ModelVariableToken} - {ModelToken} == {ModelVariableToken};
  }

  /** The third replacement retires "{{ modelVariable }}". */
  lemma RetireModelVariable(s: string, v: string)
    requires '{' !in v && BracesOpenOnly(s, {ModelVariableToken})
    ensures BracesOpenOnly(StrReplace(s, ModelVariableToken, v), {})
  {
    ModelTokensShaped();
    ReplaceRetiresToken(s, ModelVariableToken, v, {ModelVariableToken});
    assert {ModelVariableToken} - {ModelVariableToken} == {};
  }

  /** After the three replacements no "{{" is left in the result, when
      every "{{" in the stub opened a model token and the model class has no
      '{'. */
  lemma SubstituteModelRetiresAll(stub: string, modelClass: string)
    requires '{' !in modelClass
    requires BracesOpenOnly(stub, ModelTokens())
    ensures BracesOpenOnly(SubstituteModel(stub, modelClass), {})
  {
    var base := ClassBasename(modelClass);
    BasenameBraceFree(modelClass);
    var s1 := StrReplace(stub, NamespacedModelToken, modelClass);
    RetireNamespacedModel(stub, modelClass);
    var s2 := StrReplace(s1, ModelToken, base);
    RetireModel(s1, base);
    RetireModelVariable(s2, Lcfirst(base));
  }

  /** No token is left behind by the substitution: under the same
      conditions the result contains none of the three tokens. */
  lemma SubstituteModelClearsTokens(stub: string, modelClass: string)
    requires '{' !in modelClass
    requires BracesOpenOnly(stub, ModelTokens())
    ensures forall t :: t in ModelTokens() ==> !Contains(SubstituteModel(stub, modelClass), t)
  {
    var r := SubstituteModel(stub, modelClass);
    SubstituteModelRetiresAll(stub, modelClass);
    ModelTokensShaped();
    forall t | t in ModelTokens() ensures !Contains(r, t) {
      NoBracesNoToken(r, t);
    }
  }

  /** replaceModel leaves no token behind when every "{{" in the stub opens
      one of the three model tokens and the qualified model class has no '{'.
      (The condition on the stub is needed: see PlaceholderCanSurvive.) */
  lemma ReplaceModelClearsTokens(fw: Framework, stub: string, model: string)
    requires forall i :: 0 <= i < |model| ==> ModelNameChar(model[i])
    requires '{' !in fw.qualifyModel(model)
    requires BracesOpenOnly(stub, ModelTokens())
    ensures ReplaceModel(fw, stub, model).Success?
    ensures forall t :: t in ModelTokens() ==> !Contains(ReplaceModel(fw, stub, model).value, t)
  {
    assert !HasInvalidChar(model);
    assert ReplaceModel(fw, stub, model) == Success(SubstituteModel(stub, fw.qualifyModel(model)));
    SubstituteModelClearsTokens(stub, fw.qualifyModel(model));
  }

  /** Text with none of the three tokens comes back unchanged. */
  lemma {:induction false} ReplaceModelKeepsTokenFreeText(fw: Framework, stub: string, model: string)
    requires forall i :: 0 <= i < |model| ==> ModelNameChar(model[i])
    requires forall t :: t in ModelTokens() ==> !Contains(stub, t)
    ensures ReplaceModel(fw, stub, model) == Success(stub)
  {
    var modelClass := fw.qualifyModel(model);
    StrReplaceAbsent(stub, NamespacedModelToken, modelClass);
    StrReplaceAbsent(stub, ModelToken, ClassBasename(modelClass));
    StrReplaceAbsent(stub, ModelVariableToken, Lcfirst(ClassBasename(modelClass)));
  }

  /** The three values for a model qualified into a namespace: the class
      itself, its last segment, and that segment with a lower-case first
      letter. */
  lemma ReplaceModelValues(fw: Framework, stub: string, model: string, namespace: string, base: string)
    requires forall i :: 0 <= i < |model| ==> ModelNameChar(model[i])
    requires base != [] && '/' !in base && '\\' !in base
    requires fw.qualifyModel(model) == namespace + "\\" + base
    ensures ReplaceModel(fw, stub, model) == Success(
      StrReplace(
        StrReplace(
          StrReplace(stub, NamespacedModelToken, namespace + "\\" + base),
          ModelToken, base),
        ModelVariableToken, Lcfirst(base)))
  {
    ClassBasenameOfQualified(namespace, '\\', base);
  }

  /** "{{ m }}" does not start within the first three characters of
      "{{ {{ m }} }}". */
  lemma InnerTokenIsFirst()
    ensures forall i: nat :: i < 3 ==> !StartsAt("{{ " + "{{ m }} }}", i, ModelToken)
  {
    var s := "{{ " + "{{ m }} }}";
    assert s[3] == '{' && s[4] == '{' && s[5] == ' ';
    forall i: nat | i < 3 ensures !StartsAt(s, i, ModelToken) {
      assert s[i + 3] != ModelToken[3];
    }
  }

  /** Replacing "{{ m }}" by "m" in "{{ m }} }}" yields "m }}". */
  lemma TailTokenReplaced()
    ensures StrReplace("{{ m }} }}", ModelToken, "m") == "m }}"
  {
    var tail := "{{ m }} }}";
    assert tail[..7] == ModelToken;
    StrReplaceFront(tail, ModelToken, "m");
    assert tail[|ModelToken|..] == " }}";
    assert StrReplace(" }}", ModelToken, "m") == " }}";
  }

  /** Replacing "{{ m }}" by "m" in "{{ {{ m }} }}" yields "{{ m }}". */
  lemma InnerTokenReplaced()
    ensures StrReplace("{{ {{ m }} }}", ModelToken, "m") == "{{ m }}"
  {
    InnerTokenIsFirst();
    StrReplaceAfterPrefix("{{ ", "{{ m }} }}", ModelToken, "m");
    TailTokenReplaced();
    assert "{{ " + "{{ m }} }}" == "{{ {{ m }} }}";
    assert "{{ " + "m }}" == "{{ m }}";
  }

  /** Without the condition on "{{", a token can survive: in
      "{{ {{ m }} }}" the inner token is replaced by the basename "m", which
      completes a new "{{ m }}". */
  lemma PlaceholderCanSurvive(fw: Framework)
    requires fw.qualifyModel("m") == "App\\Models\\m"
    ensures ReplaceModel(fw, "{{ {{ m }} }}", "m") == Success("{{ m }}")
  {
    assert !HasInvalidChar("m");
    ClassBasenameOfQualified("App\\Models", '\\', "m");
    assert "App\\Models" + ['\\'] + "m" == "App\\Models\\m";
    assert StrReplace("{{ {{ m }} }}", NamespacedModelToken, "App\\Models\\m") == "{{ {{ m }} }}";
    InnerTokenReplaced();
    assert Lcfirst("m") == "m";
    assert StrReplace("{{ m }}", ModelVariableToken, "m") == "{{ m }}";
  }

  /** getDefaultNamespace($rootNamespace). */
  function DefaultNamespace(rootNamespace: string): string {
    rootNamespace + "\\Repositories"
  }

  /** The default namespace is a "Repositories" segment below the root. */
  lemma DefaultNamespaceSegment(rootNamespace: string)
    ensures ClassBasename(DefaultNamespace(rootNamespace)) == "Repositories"
    ensures DefaultNamespace(rootNamespace)[..|rootNamespace|] == rootNamespace
    ensures DefaultNamespace(rootNamespace)[|rootNamespace|..] == "\\Repositories"
  {
    assert DefaultNamespace(rootNamespace) == rootNamespace + "\\" + "Repositories";
    ClassBasenameOfQualified(rootNamespace, '\\', "Repositories");
  }

  /** A falsy --m (absent, "" or "0") behaves exactly as no --m: neither
      the make:model call nor the model check happens. */
  lemma FalsyModelIsAbsent(w: World, fw: Framework, input: Input, n: string)
    requires !ModelGiven(input.model)
    ensures Handled(w, fw, input, n) == Handled(w, fw, input.(model := None), n)
  {
    var path := fw.getPath(fw.qualifyClass(n));
    assert Prepared(w, fw, input.model, path) == Prepared(w, fw, None, path);
    assert BuildRepositoryClass(fw, fw.qualifyClass(n), input.isInterface, input.model)
      == BuildRepositoryClass(fw, fw.qualifyClass(n), input.isInterface, None);
  }

  /** The parsed command line: the name argument, --m, --i, and whether a
      force option is declared and set. */
  datatype Input = Input(name: string, model: Option<string>, isInterface: bool, hasForceOption: bool, force: bool)

  /** handle() as a function of the world before the run. */
  function Run(w: World, fw: Framework, input: Input): (World, Outcome) {
    Handled(w, fw, input, NameInput(input.name))
  }

  /** handle() once the name argument is normalised to `n`: the two guards,
      then Generate. */
  function Handled(w: World, fw: Framework, input: Input, n: string): (World, Outcome) {
    if fw.isReservedName(n) then
      (w.Report(Error(ReservedMessage(n))), ReturnedFalse)
    else if ExistenceChecked(input.hasForceOption, input.force) && fw.alreadyExists(n) then
      (w.Report(Error(Type + " already exists.")), ReturnedFalse)
    else
      Generate(w, fw, input, n)
  }

  /** handle() past its guards: the model call, the class directory and
      file, then the interface and the summary. */
  function Generate(w: World, fw: Framework, input: Input, n: string): (r: (World, Outcome))
    ensures r.1 == ReturnedNull || r.1.Threw?
  {
    var name := fw.qualifyClass(n);
    var path := fw.getPath(name);
    var w2 := Prepared(w, fw, input.model, path);
    match BuildRepositoryClass(fw, name, input.isInterface, input.model)
    case Failure(e) => (w2, Threw(e))
    case Success(content) => (Finish(w2.Put(path, fw.sortImports(content)), fw, input.isInterface, n, path), ReturnedNull)
  }

  /** The world before the class file is written: the model call, if any,
      and the class directory. */
  function Prepared(w: World, fw: Framework, model: Option<string>, path: string): (r: World)
    ensures r == World(w.files, w.dirs + {fw.dirname(path)},
      w.calls + (if ModelGiven(model) then [MakeModel(model.value)] else []), w.output)
  {
    (if ModelGiven(model) then w.Invoke(MakeModel(model.value)) else w).MakeDirectory(fw, path)
  }

  /** handle() after the class file is written. */
  function Finish(w: World, fw: Framework, isInterface: bool, n: string, path: string): World {
    if isInterface then
      var (w', reported) := WriteInterface(w, fw, n, path, BuildRepositoryInterface(fw, n));
      Conclude(w', fw, Type + " and interface", reported)
    else
      Conclude(w, fw, Type, path)
  }

  /** handle(), step by step against the host. */
  method Handle(host: Host, fw: Framework, input: Input) returns (outcome: Outcome)
    modifies host
    ensures (host.State(), outcome) == Run(old(host.State()), fw, input)
  {
    ghost var start := host.State();
    var n := NameInput(input.name);
    assert Run(start, fw, input) == Handled(start, fw, input, n);
    if fw.isReservedName(n) {
      host.Report(Error(ReservedMessage(n)));
      return ReturnedFalse;
    }
    var name := fw.qualifyClass(n);
    var path := fw.getPath(name);
    if ExistenceChecked(input.hasForceOption, input.force) && fw.alreadyExists(n) {
      host.Report(Error(Type + " already exists."));
      return ReturnedFalse;
    }
    var model := input.model;
    if ModelGiven(model) {
      host.Invoke(MakeModel(model.value));
    }
    host.MakeDirectory(fw, path);
    assert host.State() == Prepared(start, fw, model, path);
    var isInterface := input.isInterface;
    var content := BuildRepositoryClass(fw, name, isInterface, model);
    if content.Failure? {
      return Threw(content.error);
    }
    host.Put(path, fw.sortImports(content.value));
    var info := Type;
    if isInterface {
      path := PutInterface(host, fw, n, path, BuildRepositoryInterface(fw, n));
      info := info + " and interface";
    }
    ReportCreated(host, fw, info, path);
    return ReturnedNull;
  }

  /** The --m option is absent, falsy, or names a model with whitelisted
      characters only. */
  predicate ModelAccepted(model: Option<string>) {
    !ModelGiven(model) || forall i :: 0 <= i < |model.value| ==> ModelNameChar(model.value[i])
  }

  /** handle() returns false exactly when one of its guards fires, and then
      it only writes the guard's error line: no file, directory or call. */
  lemma Refusal(w: World, fw: Framework, input: Input, n: string)
    ensures var (w', outcome) := Handled(w, fw, input, n);
      (outcome == ReturnedFalse <==> Refused(fw, n, input.hasForceOption, input.force))
      && (fw.isReservedName(n) ==>
            w' == w.(output := w.output + [Error("The name \"" + n + "\" is reserved by PHP.")]))
      && (!fw.isReservedName(n) && Refused(fw, n, input.hasForceOption, input.force) ==>
            w' == w.(output := w.output + [Error(Type + " already exists.")]))
  {
  }

  /** With the existence check in force and an existence test that agrees
      with the files, an existing class file is never overwritten. */
  lemma KeepsExistingClassFile(w: World, fw: Framework, input: Input, n: string)
    requires ExistenceChecked(input.hasForceOption, input.force)
    requires fw.alreadyExists(n) <==> fw.getPath(fw.qualifyClass(n)) in w.files
    requires fw.getPath(fw.qualifyClass(n)) in w.files
    ensures Handled(w, fw, input, n).0.files == w.files
    ensures Handled(w, fw, input, n).1 == ReturnedFalse
  {
    Refusal(w, fw, input, n);
  }

  /** make:model runs before the model name is checked: an invalid name
      still leaves the model call and the class directory behind, writes no
      file and no line, and ends in the exception. */
  lemma RejectsModel(w: World, fw: Framework, input: Input, n: string)
    requires !Refused(fw, n, input.hasForceOption, input.force)
    requires ModelGiven(input.model) && !ModelAccepted(input.model)
    ensures var path := fw.getPath(fw.qualifyClass(n));
      Handled(w, fw, input, n) == (
        World(w.files, w.dirs + {fw.dirname(path)}, w.calls + [MakeModel(input.model.value)], w.output),
        Threw(InvalidModelName))
  {
  }

  /** For an accepted model the class text is built without an exception. */
  lemma BuildAccepted(fw: Framework, name: string, isInterface: bool, model: Option<string>)
    requires ModelAccepted(model)
    ensures BuildRepositoryClass(fw, name, isInterface, model).Success?
  {
    if ModelGiven(model) {
      assert !HasInvalidChar(model.value);
    }
  }

  /** Past the guards and with an accepted model, handle() writes the class
      file and finishes normally. */
  lemma WritesClass(w: World, fw: Framework, input: Input, n: string)
    requires !Refused(fw, n, input.hasForceOption, input.force)
    requires ModelAccepted(input.model)
    ensures var name := fw.qualifyClass(n);
      var path := fw.getPath(name);
      var built := BuildRepositoryClass(fw, name, input.isInterface, input.model);
      built.Success?
      && Handled(w, fw, input, n) == (
           Finish(Prepared(w, fw, input.model, path).Put(path, fw.sortImports(built.value)), fw, input.isInterface, n, path),
           ReturnedNull)
  {
    BuildAccepted(fw, fw.qualifyClass(n), input.isInterface, input.model);
  }

  /** Without --i exactly one file is written, the class file at getPath,
      and the summary line names that path. */
  lemma CreatesClass(w: World, fw: Framework, input: Input, n: string)
    requires !Refused(fw, n, input.hasForceOption, input.force)
    requires !input.isInterface && ModelAccepted(input.model)
    ensures var path := fw.getPath(fw.qualifyClass(n));
      var built := BuildRepositoryClass(fw, fw.qualifyClass(n), false, input.model);
      var (w', outcome) := Handled(w, fw, input, n);
      var tested := fw.usesMatchingTest && fw.handleTestCreation(path);
      built.Success?
      && outcome == ReturnedNull
      && w'.files == w.files[path := fw.sortImports(built.value)]
      && w'.dirs == w.dirs + {fw.dirname(path)}
      && w'.calls == w.calls + (if ModelGiven(input.model) then [MakeModel(input.model.value)] else [])
                             + (if fw.usesMatchingTest then [CreateTest(path)] else [])
      && w'.output == w.output + [Info(Summary(if tested then Type + " and test" else Type, path))]
  {
    WritesClass(w, fw, input, n);
  }

  /** The interface branch and the summary, for a class file
      `<dir><name>.php` whose file name occurs only at its end. */
  lemma FinishWithInterface(w: World, fw: Framework, n: string, dir: string)
    requires forall i: nat :: i < |dir| ==> !StartsAt(dir + (n + ".php"), i, n + ".php")
    ensures var file := dir + "Interfaces/" + n + "Interface.php";
      var reported := dir + (n + ".php") + "," + fw.appPath + dir + "Interfaces/";
      var tested := fw.usesMatchingTest && fw.handleTestCreation(reported);
      Finish(w, fw, true, n, dir + (n + ".php")) == World(
        w.files[file := fw.sortImports(BuildRepositoryInterface(fw, n))],
        w.dirs + {fw.dirname(file)},
        w.calls + (if fw.usesMatchingTest then [CreateTest(reported)] else []),
        w.output + [Info(Summary(
          if tested then Type + " and interface" + " and test" else Type + " and interface", reported))])
  {
    WriteInterfaceAt(w, fw, n, dir, BuildRepositoryInterface(fw, n));
  }

  /** With --i, for any class path: two files are written, the class file
      and the interface file below InterfaceDir, and the summary line names
      the class file and the interface directory below the app path. */
  lemma CreatesClassAndInterfaceAnyPath(w: World, fw: Framework, input: Input, n: string)
    requires !Refused(fw, n, input.hasForceOption, input.force)
    requires input.isInterface && ModelAccepted(input.model)
    ensures var path := fw.getPath(fw.qualifyClass(n));
      var built := BuildRepositoryClass(fw, fw.qualifyClass(n), true, input.model);
      var dir := InterfaceDir(n, path);
      var interfaceFile := dir + InterfaceFileName(n);
      var reported := path + "," + (fw.appPath + dir);
      var (w', outcome) := Handled(w, fw, input, n);
      var tested := fw.usesMatchingTest && fw.handleTestCreation(reported);
      built.Success?
      && outcome == ReturnedNull
      && w'.files == w.files[path := fw.sortImports(built.value)]
                            [interfaceFile := fw.sortImports(BuildRepositoryInterface(fw, n))]
      && w'.dirs == w.dirs + {fw.dirname(path), fw.dirname(interfaceFile)}
      && w'.calls == w.calls + (if ModelGiven(input.model) then [MakeModel(input.model.value)] else [])
                             + (if fw.usesMatchingTest then [CreateTest(reported)] else [])
      && w'.output == w.output + [Info(Summary(
           if tested then Type + " and interface" + " and test" else Type + " and interface", reported))]
  {
    var path := fw.getPath(fw.qualifyClass(n));
    WritesClass(w, fw, input, n);
    var content := fw.sortImports(BuildRepositoryClass(fw, fw.qualifyClass(n), true, input.model).value);
    var w3 := Prepared(w, fw, input.model, path).Put(path, content);
    assert w3 == World(w.files[path := content], w.dirs + {fw.dirname(path)},
      w.calls + (if ModelGiven(input.model) then [MakeModel(input.model.value)] else []), w.output);
  }

  /** With --i, when the class file is `<dir><name>.php` and that file name
      does not occur earlier in the path, two files are written: the class
      file and `<dir>Interfaces/<name>Interface.php`; the summary line names
      the class file and the interface directory below the app path. */
  lemma CreatesClassAndInterface(w: World, fw: Framework, input: Input, n: string, dir: string)
    requires !Refused(fw, n, input.hasForceOption, input.force)
    requires input.isInterface && ModelAccepted(input.model)
    requires fw.getPath(fw.qualifyClass(n)) == dir + (n + ".php")
    requires forall i: nat :: i < |dir| ==> !StartsAt(dir + (n + ".php"), i, n + ".php")
    ensures var path := fw.getPath(fw.qualifyClass(n));
      var built := BuildRepositoryClass(fw, fw.qualifyClass(n), true, input.model);
      var interfaceFile := dir + "Interfaces/" + n + "Interface.php";
      var reported := path + "," + fw.appPath + dir + "Interfaces/";
      var (w', outcome) := Handled(w, fw, input, n);
      var tested := fw.usesMatchingTest && fw.handleTestCreation(reported);
      built.Success?
      && interfaceFile != path
      && outcome == ReturnedNull
      && w'.files == w.files[path := fw.sortImports(built.value)]
                            [interfaceFile := fw.sortImports(BuildRepositoryInterface(fw, n))]
      && w'.dirs == w.dirs + {fw.dirname(path), fw.dirname(interfaceFile)}
      && w'.calls == w.calls + (if ModelGiven(input.model) then [MakeModel(input.model.value)] else [])
                             + (if fw.usesMatchingTest then [CreateTest(reported)] else [])
      && w'.output == w.output + [Info(Summary(
           if tested then Type + " and interface" + " and test" else Type + " and interface", reported))]
  {
    CreatesClassAndInterfaceAnyPath(w, fw, input, n);
    InterfacePathsAt(dir, n, fw.appPath);
  }
}
