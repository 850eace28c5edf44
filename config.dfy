/**
 * The configuration registry `Config` (src/Config.php): configurations
 * stored by service name and instance name, a persistence overlay merged
 * over the whole store after every write, and lazy loading of a service's
 * file from a configuration directory. The filesystem is an oracle given
 * to the operations that touch it.
 */
module Registry {
  import opened Wrappers
  import opened PhpValues
  import opened Merge

  /** `DIRECTORY_SEPARATOR` on the systems modelled here. */
  const Separator := "/"

  /**
   * What the operations ask of the filesystem: `realpath` (a path absent
   * from `realpaths` resolves to `false`), `is_dir`, `is_file`, and the value
   * `Isolation::require` returns for each file.
   */
  datatype FileSystem = FileSystem(realpaths: map<string, string>, dirs: set<string>, files: map<string, Value>)

  /** Every file returns a genuine PHP value. */
  ghost predicate FsValid(fs: FileSystem) {
    forall f | f in fs.files :: WF(fs.files[f])
  }

  /** A store of configurations: an array of services, each an array of instances. */
  ghost predicate IsRegistry(x: Value) {
    x.Arr? && forall n | n in x.vals :: x.vals[n].Arr?
  }

  /** `$configs[$name][$instance] ?? null`. */
  function Entry(c: Value, n: Key, i: Key): (r: Option<Value>)
    ensures r.Some? <==> c.Arr? && n in c.vals && c.vals[n].Arr? && i in c.vals[n].vals && !c.vals[n].vals[i].Null?
    ensures r.Some? ==> r.value == c.vals[n].vals[i]
  {
    if c.Arr? && n in c.vals && c.vals[n].Arr? && i in c.vals[n].vals && !c.vals[n].vals[i].Null?
    then Some(c.vals[n].vals[i]) else None
  }

  /** `$configs[$name][$instance] = $values`: the service is created when missing, the instance replaced or appended. */
  function Store(c: Value, n: Key, i: Key, v: Value): (r: Value)
    requires IsRegistry(c)
    ensures IsRegistry(r)
  {
    var instances := if n in c.vals then c.vals[n] else Empty;
    Put(c, n, Put(instances, i, v))
  }

  /** `replacePersistence`: nothing when the persistence is empty, otherwise merged over the whole store. */
  function Overlay(c: Value, p: Value): (r: Value)
    requires IsRegistry(c) && IsRegistry(p)
    ensures IsRegistry(r)
  {
    if IsEmptyArr(p) then c else ReplaceRecursive(c, p)
  }

  /** The store after `set($name, $values, $instance)`. */
  function Stored(c: Value, p: Value, name: string, instance: string, v: Value): (r: Value)
    requires IsRegistry(c) && IsRegistry(p)
    ensures IsRegistry(r)
  {
    Overlay(Store(c, NormKey(name), NormKey(instance), v), p)
  }

  /** What `add` stores before persistence: an existing instance merged with the new values, the new values otherwise. */
  function AddedValue(c: Value, n: Key, i: Key, v: Value): Value {
    match Entry(c, n, i)
    case Some(existing) => ReplaceRecursive(existing, v)
    case None => v
  }

  /** `isset` holds for the instance but it is no array, so `array_replace_recursive` refuses it. */
  predicate AddFails(c: Value, n: Key, i: Key) {
    Entry(c, n, i).Some? && !Entry(c, n, i).value.Arr?
  }

  /** The TypeError `array_replace_recursive` raises for a first argument that is not an array. */
  function MergeArgumentError(given: Value): string {
    "array_replace_recursive(): Argument #1 ($array) must be of type array, " + TypeName(given) + " given"
  }

  /** The TypeError a method's declared return type raises for a value of another type. */
  function ReturnTypeError(member: string, expected: string, returned: Value): string {
    "Framework\\Config\\Config::" + member + "(): Return value must be of type " + expected + ", " + TypeName(returned) + " returned"
  }

  /**
   * `return $this->configs[$name][$instance] ?? []` under the return type
   * `array`: the instance when it is an array, `[]` when it is missing or
   * null, and the TypeError for anything else.
   */
  function PersistentResult(e: Option<Value>): (r: Result<Value>)
    ensures r.Ok? <==> e.None? || e.value.Arr?
    ensures r.Ok? ==> r.value.Arr? && (e.Some? ==> r.value == e.value)
    ensures r.Err? ==> r.message == ReturnTypeError("getPersistentConfigs", "array", e.value)
  {
    match e
    case None => Ok(Empty)
    case Some(v) => if v.Arr? then Ok(v) else Err(ReturnTypeError("getPersistentConfigs", "array", v))
  }

  /**
   * `return $this->configs[$name][$instance] ?? null` under the return type
   * `?array`: the instance or null, and the TypeError for an instance that is
   * no array.
   */
  function GetResult(e: Option<Value>): (r: Result<Option<Value>>)
    ensures r.Ok? <==> e.None? || e.value.Arr?
    ensures r.Ok? ==> r.value == e
    ensures r.Err? ==> r.message == ReturnTypeError("get", "?array", e.value)
  {
    match e
    case None => Ok(None)
    case Some(v) => if v.Arr? then Ok(Some(v)) else Err(ReturnTypeError("get", "?array", v))
  }

  /** The result of a sequence of `set` calls: the store so far, and the error that stopped it if one did. */
  datatype Run = Run(configs: Value, outcome: Outcome)

  /** The TypeError strict typing raises when `setMany` hands `set` an argument of the wrong type. */
  function ArgumentError(position: string, parameter: string, expected: string, given: Value): string {
    "Framework\\Config\\Config::set(): Argument #" + position + " ($" + parameter + ") must be of type " +
    expected + ", " + TypeName(given) + " given"
  }

  /** The argument a key becomes: an integer key is an `int`, a string key a `string`. */
  function KeyValue(k: Key): Value {
    match k
    case IntKey(i) => Int(i)
    case StrKey(s) => Str(s)
  }

  /**
   * One `set` call from `setMany`'s inner loop: its three arguments checked
   * in order, then the write, then what `set` returns, whose TypeError stops
   * the loop after the write.
   */
  function SetCall(c: Value, p: Value, name: Key, instance: Key, config: Value): (r: Run)
    requires IsRegistry(c) && IsRegistry(p)
    ensures IsRegistry(r.configs)
    ensures !(name.StrKey? && config.Arr? && instance.StrKey?) ==> r.outcome.Fail? && r.configs == c
    ensures name.StrKey? && config.Arr? && instance.StrKey? ==>
      && r.configs == Stored(c, p, name.s, instance.s, config)
      && (r.outcome.Pass? <==> PersistentResult(Entry(r.configs, NormKey(name.s), NormKey(instance.s))).Ok?)
  {
    if name.IntKey? then Run(c, Fail(ArgumentError("1", "name", "string", KeyValue(name))))
    else if !config.Arr? then Run(c, Fail(ArgumentError("2", "configs", "array", config)))
    else if instance.IntKey? then Run(c, Fail(ArgumentError("3", "instance", "string", KeyValue(instance))))
    else
      var stored := Stored(c, p, name.s, instance.s, config);
      match PersistentResult(Entry(stored, NormKey(name.s), NormKey(instance.s)))
      case Ok(_) => Run(stored, Pass)
      case Err(m) => Run(stored, Fail(m))
  }

  /** The inner loop of `setMany` over one service's instances; the first error stops it. */
  function SetInstances(c: Value, p: Value, name: Key, instances: seq<(Key, Value)>): (r: Run)
    requires IsRegistry(c) && IsRegistry(p)
    ensures IsRegistry(r.configs)
  {
    if instances == [] then Run(c, Pass)
    else
      var prev := SetInstances(c, p, name, instances[..|instances| - 1]);
      var last := instances[|instances| - 1];
      if prev.outcome.Fail? then prev else SetCall(prev.configs, p, name, last.0, last.1)
  }

  /**
   * `setMany`: every service's instances set in order. A service whose
   * value is not an array draws `foreach`'s warning and is skipped; the
   * first TypeError stops the whole call, leaving the earlier sets done.
   */
  function SetManyRun(c: Value, p: Value, services: seq<(Key, Value)>): (r: Run)
    requires IsRegistry(c) && IsRegistry(p)
    requires forall j | 0 <= j < |services| :: WF(services[j].1)
    ensures IsRegistry(r.configs)
  {
    if services == [] then Run(c, Pass)
    else
      var prev := SetManyRun(c, p, services[..|services| - 1]);
      var last := services[|services| - 1];
      if prev.outcome.Fail? || !last.1.Arr? then prev
      else SetInstances(prev.configs, p, last.0, Entries(last.1))
  }

  /** `empty($this->configs[$name])`: the service is missing or has no instances. */
  predicate NeedsLoad(c: Value, n: Key)
    requires c.Arr?
  {
    n !in c.vals || c.vals[n] == Null || IsEmptyArr(c.vals[n])
  }

  /** `$this->configsDir . $name . $this->suffix`, where a null directory concatenates as nothing. */
  function FileName(dir: Option<string>, name: string, suffix: string): string {
    (if dir.Some? then dir.value else "") + name + suffix
  }

  /** `realpath` resolves the path and `is_file` holds for the result. */
  predicate IsFileAt(fs: FileSystem, path: string) {
    path in fs.realpaths && fs.realpaths[path] in fs.files
  }

  /** The message `load` raises for a missing file. */
  function FileNotFound(name: string): string {
    "Config file not found: " + name
  }

  /** The message `setDir` raises for a missing directory, naming the path as given. */
  function DirNotFound(directory: string): string {
    "Config directory not found: " + directory
  }

  /** `load($name)`: the file's value set through `setMany([$name => $configs])`, or the missing-file error. */
  function LoadRun(c: Value, p: Value, dir: Option<string>, suffix: string, name: string, fs: FileSystem): (r: Run)
    requires IsRegistry(c) && IsRegistry(p) && FsValid(fs)
    ensures !IsFileAt(fs, FileName(dir, name, suffix)) ==> r == Run(c, Fail(FileNotFound(name)))
  {
    var file := FileName(dir, name, suffix);
    if !IsFileAt(fs, file) then Run(c, Fail(FileNotFound(name)))
    else SetManyRun(c, p, [(NormKey(name), fs.files[fs.realpaths[file]])])
  }

  /** What the constructor's first argument may be: nothing, the arrays to set, or the configuration directory. */
  datatype Initial = Nothing | Arrays(configs: Value) | Directory(path: string)

  class Config {
    var configs: Value
    var configsDir: Option<string>
    var persistence: Value
    var suffix: string

    /** Both stores are genuine registries. */
    ghost predicate Valid()
      reads this
    {
      && IsRegistry(configs) && WF(configs)
      && IsRegistry(persistence) && WF(persistence)
    }

    /** A directory, once set, ends with the separator. */
    ghost predicate DirValid()
      reads this
    {
      configsDir.Some? ==> EndsWithSeparator(configsDir.value)
    }

    /** The object before the constructor's body runs: every property at its default. */
    constructor ()
      ensures Valid() && DirValid()
      ensures configs == Empty && configsDir == None && persistence == Empty && suffix == ".php"
    {
      configs := Empty;
      configsDir := None;
      persistence := Empty;
      suffix := ".php";
    }

    /**
     * `new Config($configs, $persistence, $suffix)`: the arrays are set, or
     * the directory checked, before the persistence is installed, so the
     * persistence is not merged over the arrays given here.
     */
    static method New(initial: Initial, persistence: Value, suffix: string, fs: FileSystem) returns (c: Config, outcome: Outcome)
      requires IsRegistry(persistence) && WF(persistence)
      requires initial.Arrays? ==> initial.configs.Arr? && WF(initial.configs)
      ensures fresh(c) && c.Valid() && c.DirValid()
      ensures initial.Nothing? ==> outcome == Pass && c.configs == Empty && c.configsDir == None
      ensures initial.Arrays? ==>
        && Run(c.configs, outcome) == SetManyRun(Empty, Empty, Entries(initial.configs))
        && c.configsDir == None
      ensures initial.Directory? ==> c.configs == Empty && (outcome.Pass? <==> DirFound(fs, initial.path))
      ensures initial.Directory? && outcome.Pass? ==> c.configsDir == Some(fs.realpaths[initial.path] + Separator)
      ensures initial.Directory? && outcome.Fail? ==> outcome.message == DirNotFound(initial.path)
      ensures outcome.Pass? ==> c.persistence == persistence && c.suffix == suffix
    {
      c := new Config();
      outcome := Pass;
      match initial {
        case Nothing =>
        case Arrays(arrays) =>
          outcome := c.SetMany(arrays);
        case Directory(path) =>
          outcome := c.SetDir(path, fs);
      }
      if outcome.Fail? {
        return;
      }
      c.SetPersistence(persistence);
      c.suffix := suffix;
    }

    /** `setPersistence`: the overlay is installed as given, and nothing is merged yet. */
    method SetPersistence(p: Value)
      requires Valid() && IsRegistry(p) && WF(p)
      modifies this
      ensures Valid() && persistence == p
      ensures configs == old(configs) && configsDir == old(configsDir) && suffix == old(suffix)
    {
      persistence := p;
    }

    /** `replacePersistence`: the persistence merged over the whole store. */
    method ReplacePersistence()
      requires Valid()
      modifies this
      ensures Valid() && configs == Overlay(old(configs), persistence)
      ensures configsDir == old(configsDir) && persistence == old(persistence) && suffix == old(suffix)
    {
      OverlayWF(configs, persistence);
      if IsEmptyArr(persistence) {
        return;
      }
      configs := ReplaceRecursive(configs, persistence);
    }

    /**
     * `getPersistentConfigs`: the persistence merged over the store, then the
     * instance, `[]` when it is missing; an instance that is no array fails
     * the return type.
     */
    method GetPersistentConfigs(name: string, instance: string) returns (r: Result<Value>)
      requires Valid()
      modifies this
      ensures Valid() && configs == Overlay(old(configs), persistence)
      ensures configsDir == old(configsDir) && persistence == old(persistence) && suffix == old(suffix)
      ensures r == PersistentResult(Entry(configs, NormKey(name), NormKey(instance)))
    {
      ReplacePersistence();
      var entry := Entry(configs, NormKey(name), NormKey(instance));
      if entry.Some? && !entry.value.Arr? {
        return Err(ReturnTypeError("getPersistentConfigs", "array", entry.value));
      }
      r := Ok(if entry.Some? then entry.value else Empty);
    }

    /** `set`: the instance replaced wholesale, the persistence merged over the store, and the instance returned. */
    method Set(name: string, values: Value, instance: string) returns (r: Result<Value>)
      requires Valid() && values.Arr? && WF(values)
      modifies this
      ensures Valid() && configs == Stored(old(configs), persistence, name, instance, values)
      ensures configsDir == old(configsDir) && persistence == old(persistence) && suffix == old(suffix)
      ensures r == PersistentResult(Entry(configs, NormKey(name), NormKey(instance)))
    {
      StoreWF(configs, NormKey(name), NormKey(instance), values);
      configs := Store(configs, NormKey(name), NormKey(instance), values);
      r := GetPersistentConfigs(name, instance);
    }

    /**
     * `get`: the service loaded first when it is empty and a directory is
     * set; then the instance, or null; an instance that is no array fails the
     * return type.
     */
    method Get(name: string, instance: string, fs: FileSystem) returns (r: Result<Option<Value>>)
      requires Valid() && FsValid(fs)
      modifies this
      ensures Valid()
      ensures configsDir == old(configsDir) && persistence == old(persistence) && suffix == old(suffix)
      ensures !(NeedsLoad(old(configs), NormKey(name)) && old(configsDir).Some?) ==>
        configs == old(configs) && r == GetResult(Entry(configs, NormKey(name), NormKey(instance)))
      ensures NeedsLoad(old(configs), NormKey(name)) && old(configsDir).Some? ==>
        var run := LoadRun(old(configs), persistence, configsDir, suffix, name, fs);
        && configs == run.configs
        && r == (if run.outcome.Fail? then Err(run.outcome.message) else GetResult(Entry(configs, NormKey(name), NormKey(instance))))
    {
      if NeedsLoad(configs, NormKey(name)) && configsDir.Some? {
        var outcome := Load(name, fs);
        if outcome.Fail? {
          return Err(outcome.message);
        }
      }
      var entry := Entry(configs, NormKey(name), NormKey(instance));
      if entry.Some? && !entry.value.Arr? {
        return Err(ReturnTypeError("get", "?array", entry.value));
      }
      r := Ok(entry);
    }

    /** `getInstances`: the service's instances, or null. */
    function GetInstances(name: string): (r: Option<Value>)
      requires Valid()
      reads this
      ensures r.Some? <==> NormKey(name) in configs.vals
      ensures r.Some? ==> r.value.Arr? && r.value == configs.vals[NormKey(name)]
    {
      if NormKey(name) in configs.vals && !configs.vals[NormKey(name)].Null? then Some(configs.vals[NormKey(name)]) else None
    }

    /**
     * `add`: an existing instance merged with the new values, which win; a
     * missing one set as by `set`. An existing instance that is no array makes
     * the merge fail before anything is written.
     */
    method Add(name: string, values: Value, instance: string) returns (r: Result<Value>)
      requires Valid() && values.Arr? && WF(values)
      modifies this
      ensures Valid()
      ensures configsDir == old(configsDir) && persistence == old(persistence) && suffix == old(suffix)
      ensures AddFails(old(configs), NormKey(name), NormKey(instance)) ==>
        && configs == old(configs)
        && r == Err(MergeArgumentError(Entry(old(configs), NormKey(name), NormKey(instance)).value))
      ensures !AddFails(old(configs), NormKey(name), NormKey(instance)) ==>
        && configs == Stored(old(configs), persistence, name, instance, AddedValue(old(configs), NormKey(name), NormKey(instance), values))
        && r == PersistentResult(Entry(configs, NormKey(name), NormKey(instance)))
    {
      var n, i := NormKey(name), NormKey(instance);
      if Entry(configs, n, i).Some? {
        if !configs.vals[n].vals[i].Arr? {
          return Err(MergeArgumentError(configs.vals[n].vals[i]));
        }
        var merged := ReplaceRecursive(configs.vals[n].vals[i], values);
        assert WF(configs.vals[n]);
        PreservesWF(configs.vals[n].vals[i], values);
        StoreWF(configs, n, i, merged);
        configs := Store(configs, n, i, merged);
        r := GetPersistentConfigs(name, instance);
        return;
      }
      r := Set(name, values, instance);
    }

    /** `setMany`: a `set` per service and instance, in order; the outer loop over the services. */
    method SetMany(services: Value) returns (outcome: Outcome)
      requires Valid() && services.Arr? && WF(services)
      modifies this
      ensures Valid() && Run(configs, outcome) == SetManyRun(old(configs), persistence, Entries(services))
      ensures configsDir == old(configsDir) && persistence == old(persistence) && suffix == old(suffix)
    {
      var entries := Entries(services);
      var i := 0;
      while i < |entries|
        invariant 0 <= i <= |entries| && Valid()
        invariant SetManyRun(old(configs), persistence, entries[..i]) == Run(configs, Pass)
        invariant configsDir == old(configsDir) && persistence == old(persistence) && suffix == old(suffix)
      {
        SetManyStep(old(configs), persistence, entries, i);
        if entries[i].1.Arr? {
          outcome := SetService(entries[i].0, entries[i].1);
          if outcome.Fail? {
            SetManyStayFailed(old(configs), persistence, entries, i + 1);
            return;
          }
        }
        i := i + 1;
      }
      assert entries[..i] == entries;
      outcome := Pass;
    }

    /** The inner loop of `setMany`: a `set` per instance of one service, its arguments type-checked. */
    method SetService(name: Key, values: Value) returns (outcome: Outcome)
      requires Valid() && values.Arr? && WF(values)
      modifies this
      ensures Valid() && Run(configs, outcome) == SetInstances(old(configs), persistence, name, Entries(values))
      ensures configsDir == old(configsDir) && persistence == old(persistence) && suffix == old(suffix)
    {
      var instances := Entries(values);
      var j := 0;
      while j < |instances|
        invariant 0 <= j <= |instances| && Valid()
        invariant SetInstances(old(configs), persistence, name, instances[..j]) == Run(configs, Pass)
        invariant configsDir == old(configsDir) && persistence == old(persistence) && suffix == old(suffix)
      {
        SetInstancesStep(old(configs), persistence, name, instances, j);
        var instance := instances[j].0;
        var config := instances[j].1;
        if name.IntKey? || !config.Arr? || instance.IntKey? {
          SetInstancesStayFailed(old(configs), persistence, name, instances, j + 1);
          return SetCall(configs, persistence, name, instance, config).outcome;
        }
        ghost var before := configs;
        var result := Set(name.s, config, instance.s);
        SetCallStored(before, persistence, name, instance, config);
        if result.Err? {
          SetInstancesStayFailed(old(configs), persistence, name, instances, j + 1);
          return Fail(result.message);
        }
        j := j + 1;
      }
      assert instances[..j] == instances;
      outcome := Pass;
    }

    /** `getAll`: the whole store, a registry of services. */
    function GetAll(): (r: Value)
      requires Valid()
      reads this
      ensures IsRegistry(r) && WF(r)
    {
      configs
    }

    /** `setDir`: the resolved directory plus the separator when it exists; the error naming the path as given otherwise. */
    method SetDir(directory: string, fs: FileSystem) returns (outcome: Outcome)
      requires Valid()
      modifies this
      ensures Valid() && configs == old(configs) && persistence == old(persistence) && suffix == old(suffix)
      ensures old(DirValid()) ==> DirValid()
      ensures outcome.Pass? <==> DirFound(fs, directory)
      ensures outcome.Pass? ==> configsDir == Some(fs.realpaths[directory] + Separator)
      ensures outcome.Fail? ==> outcome == Fail(DirNotFound(directory)) && configsDir == old(configsDir)
    {
      if directory !in fs.realpaths || fs.realpaths[directory] !in fs.dirs {
        return Fail(DirNotFound(directory));
      }
      configsDir := Some(fs.realpaths[directory] + Separator);
      outcome := Pass;
    }

    /** `getDir`: the directory with its trailing separator, or null when none was set. */
    function GetDir(): (r: Option<string>)
      requires DirValid()
      reads this
      ensures r.Some? ==> EndsWithSeparator(r.value)
    {
      configsDir
    }

    /** `load`: the service's file set through `setMany`; a missing file leaves the store as it was. */
    method Load(name: string, fs: FileSystem) returns (outcome: Outcome)
      requires Valid() && FsValid(fs)
      modifies this
      ensures Valid() && Run(configs, outcome) == LoadRun(old(configs), persistence, configsDir, suffix, name, fs)
      ensures configsDir == old(configsDir) && persistence == old(persistence) && suffix == old(suffix)
    {
      var file := FileName(configsDir, name, suffix);
      if file !in fs.realpaths || fs.realpaths[file] !in fs.files {
        return Fail(FileNotFound(name));
      }
      var value := fs.files[fs.realpaths[file]];
      var single := Arr([NormKey(name)], map[NormKey(name) := value]);
      assert Entries(single) == [(NormKey(name), value)];
      outcome := SetMany(single);
    }
  }

  predicate EndsWithSeparator(dir: string) {
    |dir| > 0 && dir[|dir| - 1] == '/'
  }

  /** `realpath` resolves the path and `is_dir` holds for the result. */
  predicate DirFound(fs: FileSystem, directory: string) {
    directory in fs.realpaths && fs.realpaths[directory] in fs.dirs
  }

  lemma OverlayWF(c: Value, p: Value)
    requires IsRegistry(c) && WF(c) && IsRegistry(p) && WF(p)
    ensures WF(Overlay(c, p))
  {
    if !IsEmptyArr(p) {
      PreservesWF(c, p);
    }
  }

  lemma StoreWF(c: Value, n: Key, i: Key, v: Value)
    requires IsRegistry(c) && WF(c) && WF(v)
    ensures WF(Store(c, n, i, v))
  {
    var instances := if n in c.vals then c.vals[n] else Empty;
    PutWF(instances, i, v);
    PutWF(c, n, Put(instances, i, v));
  }

  /** A well-typed call writes as `set` does, and fails exactly with the TypeError `set` raises. */
  lemma SetCallStored(c: Value, p: Value, name: Key, instance: Key, config: Value)
    requires IsRegistry(c) && IsRegistry(p) && name.StrKey? && config.Arr? && instance.StrKey?
    ensures var s := Stored(c, p, name.s, instance.s, config);
      var result := PersistentResult(Entry(s, NormKey(name.s), NormKey(instance.s)));
      SetCall(c, p, name, instance, config) == Run(s, if result.Ok? then Pass else Fail(result.message))
  {
  }

  /** Without persistence a well-typed call stores the values and succeeds. */
  lemma SetCallWithoutPersistence(c: Value, name: Key, instance: Key, config: Value)
    requires IsRegistry(c) && name.StrKey? && config.Arr? && instance.StrKey?
    ensures SetCall(c, Empty, name, instance, config) == Run(Store(c, NormKey(name.s), NormKey(instance.s), config), Pass)
  {
    SetReplaces(c, NormKey(name.s), NormKey(instance.s), config, NormKey(name.s), NormKey(instance.s));
  }

  lemma SetInstancesStep(c: Value, p: Value, name: Key, instances: seq<(Key, Value)>, j: nat)
    requires IsRegistry(c) && IsRegistry(p) && j < |instances|
    ensures SetInstances(c, p, name, instances[..j + 1]) ==
      var prev := SetInstances(c, p, name, instances[..j]);
      if prev.outcome.Fail? then prev else SetCall(prev.configs, p, name, instances[j].0, instances[j].1)
  {
    assert instances[..j + 1][..j] == instances[..j];
  }

  lemma SetManyStep(c: Value, p: Value, services: seq<(Key, Value)>, i: nat)
    requires IsRegistry(c) && IsRegistry(p) && i < |services|
    requires forall j | 0 <= j < |services| :: WF(services[j].1)
    ensures SetManyRun(c, p, services[..i + 1]) ==
      var prev := SetManyRun(c, p, services[..i]);
      if prev.outcome.Fail? || !services[i].1.Arr? then prev
      else SetInstances(prev.configs, p, services[i].0, Entries(services[i].1))
  {
    assert services[..i + 1][..i] == services[..i];
  }

  /** Once a `set` fails, the rest of the service's instances change nothing. */
  lemma {:induction false} SetInstancesStayFailed(c: Value, p: Value, name: Key, instances: seq<(Key, Value)>, n: nat)
    requires IsRegistry(c) && IsRegistry(p)
    requires n <= |instances| && SetInstances(c, p, name, instances[..n]).outcome.Fail?
    ensures SetInstances(c, p, name, instances) == SetInstances(c, p, name, instances[..n])
    decreases |instances|
  {
    if n < |instances| {
      var prefix := instances[..|instances| - 1];
      assert prefix[..n] == instances[..n];
      SetInstancesStayFailed(c, p, name, prefix, n);
    } else {
      assert instances[..n] == instances;
    }
  }

  /** Once a `set` fails, the rest of the services change nothing. */
  lemma {:induction false} SetManyStayFailed(c: Value, p: Value, services: seq<(Key, Value)>, n: nat)
    requires IsRegistry(c) && IsRegistry(p)
    requires forall j | 0 <= j < |services| :: WF(services[j].1)
    requires n <= |services| && SetManyRun(c, p, services[..n]).outcome.Fail?
    ensures SetManyRun(c, p, services) == SetManyRun(c, p, services[..n])
    decreases |services|
  {
    if n < |services| {
      var prefix := services[..|services| - 1];
      assert prefix[..n] == services[..n];
      SetManyStayFailed(c, p, prefix, n);
    } else {
      assert services[..n] == services;
    }
  }

  /**
   * `set` replaces: the instance holds exactly the new values, and every
   * other service and instance reads as before.
   */
  lemma SetReplaces(c: Value, n: Key, i: Key, v: Value, n2: Key, i2: Key)
    requires IsRegistry(c) && v.Arr?
    ensures Entry(Store(c, n, i, v), n, i) == Some(v)
    ensures (n2, i2) != (n, i) ==> Entry(Store(c, n, i, v), n2, i2) == Entry(c, n2, i2)
  {
  }

  /**
   * What `set` stores: the new values, merged under the persistence's entry
   * for that instance when there is one (which, when it is no array,
   * replaces them).
   */
  lemma SetResult(c: Value, p: Value, name: string, instance: string, v: Value)
    requires IsRegistry(c) && IsRegistry(p) && v.Arr?
    ensures var n, i := NormKey(name), NormKey(instance);
      var s := Stored(c, p, name, instance, v);
      && n in s.vals && s.vals[n].Arr? && i in s.vals[n].vals
      && s.vals[n].vals[i] == if n in p.vals && i in p.vals[n].vals then ReplaceRecursive(v, p.vals[n].vals[i]) else v
  {
    var n, i := NormKey(name), NormKey(instance);
    var s := Store(c, n, i, v);
    assert s.vals[n].vals[i] == v;
    if !IsEmptyArr(p) {
      if n in p.vals {
        ArraysRecurse(s, p, n);
        if i in p.vals[n].vals && p.vals[n].vals[i].Arr? {
          ArraysRecurse(s.vals[n], p.vals[n], i);
        } else if i in p.vals[n].vals {
          OverlayWins(s.vals[n], p.vals[n], i);
        } else {
          BaseOnlyKept(s.vals[n], p.vals[n], i);
        }
      } else {
        BaseOnlyKept(s, p, n);
      }
    }
  }

  /**
   * What `set` returns: the new values merged under the persistence's array
   * for the instance; `[]` when the persistence nulls the instance; and the
   * return type's TypeError when the persistence holds any other scalar there.
   */
  lemma SetReturns(c: Value, p: Value, name: string, instance: string, v: Value)
    requires IsRegistry(c) && IsRegistry(p) && v.Arr?
    ensures var n, i := NormKey(name), NormKey(instance);
      PersistentResult(Entry(Stored(c, p, name, instance, v), n, i)) ==
        if n in p.vals && i in p.vals[n].vals then
          var q := p.vals[n].vals[i];
          if q.Null? then Ok(Empty)
          else if q.Arr? then Ok(ReplaceRecursive(v, q))
          else Err(ReturnTypeError("getPersistentConfigs", "array", q))
        else Ok(v)
  {
    SetResult(c, p, name, instance, v);
  }

  /**
   * `add` merges: on an existing instance every leaf of the new values wins
   * and every key only the old instance holds is kept; on a missing
   * instance the values are stored as `set` stores them.
   */
  lemma AddMerges(c: Value, n: Key, i: Key, v: Value, path: seq<Key>, k: Key)
    requires v.Arr?
    ensures Entry(c, n, i).None? ==> AddedValue(c, n, i, v) == v
    ensures Entry(c, n, i).Some? && Lookup(v, path).Some? && !Lookup(v, path).value.Arr? ==>
      Lookup(AddedValue(c, n, i, v), path) == Lookup(v, path)
    ensures Entry(c, n, i).Some? && Entry(c, n, i).value.Arr? && k in Entry(c, n, i).value.vals && k !in v.vals ==>
      AddedValue(c, n, i, v).vals[k] == Entry(c, n, i).value.vals[k]
  {
    if Entry(c, n, i).Some? {
      var existing := Entry(c, n, i).value;
      if Lookup(v, path).Some? && !Lookup(v, path).value.Arr? {
        OverlayLeafHolds(existing, v, path);
      }
      if existing.Arr? && k in existing.vals && k !in v.vals {
        BaseOnlyKept(existing, v, k);
      }
    }
  }

  /** Persistence wins: after the overlay every leaf of the persistence is found, unchanged, at its path. */
  lemma PersistenceWins(c: Value, p: Value, path: seq<Key>)
    requires IsRegistry(c) && IsRegistry(p)
    requires Lookup(p, path).Some? && !Lookup(p, path).value.Arr?
    ensures Lookup(Overlay(c, p), path) == Lookup(p, path)
  {
    if !IsEmptyArr(p) {
      OverlayLeafHolds(c, p, path);
    }
  }

  /** Every leaf of the persistence is found, unchanged, at its path in the store. */
  ghost predicate Persisted(c: Value, p: Value) {
    forall path | Lookup(p, path).Some? && !Lookup(p, path).value.Arr? :: Lookup(c, path) == Lookup(p, path)
  }

  /** The overlay puts every persistence leaf in place. */
  lemma OverlayPersisted(c: Value, p: Value)
    requires IsRegistry(c) && IsRegistry(p)
    ensures Persisted(Overlay(c, p), p)
  {
    forall path | Lookup(p, path).Some? && !Lookup(p, path).value.Arr? ensures Lookup(Overlay(c, p), path) == Lookup(p, path) {
      PersistenceWins(c, p, path);
    }
  }

  /** After a `set`, every persistence leaf holds in the store. */
  lemma StoredPersisted(c: Value, p: Value, name: string, instance: string, v: Value)
    requires IsRegistry(c) && IsRegistry(p)
    ensures Persisted(Stored(c, p, name, instance, v), p)
  {
    OverlayPersisted(Store(c, NormKey(name), NormKey(instance), v), p);
  }

  /** One call of `setMany` keeps every persistence leaf in place: a refused call writes nothing, any other re-applies the overlay. */
  lemma SetCallPersisted(c: Value, p: Value, name: Key, instance: Key, config: Value)
    requires IsRegistry(c) && IsRegistry(p) && Persisted(c, p)
    ensures Persisted(SetCall(c, p, name, instance, config).configs, p)
  {
    if name.StrKey? && config.Arr? && instance.StrKey? {
      StoredPersisted(c, p, name.s, instance.s, config);
    }
  }

  lemma {:induction false} SetInstancesPersisted(c: Value, p: Value, name: Key, instances: seq<(Key, Value)>)
    requires IsRegistry(c) && IsRegistry(p) && Persisted(c, p)
    ensures Persisted(SetInstances(c, p, name, instances).configs, p)
  {
    if instances != [] {
      var prefix := instances[..|instances| - 1];
      var last := instances[|instances| - 1];
      SetInstancesPersisted(c, p, name, prefix);
      var prev := SetInstances(c, p, name, prefix);
      if prev.outcome.Pass? {
        SetCallPersisted(prev.configs, p, name, last.0, last.1);
      }
    }
  }

  /** Persistence always wins: whatever `setMany` sets, and wherever it stops, every persistence leaf still holds. */
  lemma {:induction false} SetManyPersisted(c: Value, p: Value, services: seq<(Key, Value)>)
    requires IsRegistry(c) && IsRegistry(p) && Persisted(c, p)
    requires forall j | 0 <= j < |services| :: WF(services[j].1)
    ensures Persisted(SetManyRun(c, p, services).configs, p)
  {
    if services != [] {
      var prefix := services[..|services| - 1];
      var last := services[|services| - 1];
      SetManyPersisted(c, p, prefix);
      var prev := SetManyRun(c, p, prefix);
      if prev.outcome.Pass? && last.1.Arr? {
        SetInstancesPersisted(prev.configs, p, last.0, Entries(last.1));
      }
    }
  }

  /** Loading a file keeps every persistence leaf in place. */
  lemma LoadPersisted(c: Value, p: Value, dir: Option<string>, suffix: string, name: string, fs: FileSystem)
    requires IsRegistry(c) && IsRegistry(p) && FsValid(fs) && Persisted(c, p)
    ensures Persisted(LoadRun(c, p, dir, suffix, name, fs).configs, p)
  {
    var file := FileName(dir, name, suffix);
    if IsFileAt(fs, file) {
      SetManyPersisted(c, p, [(NormKey(name), fs.files[fs.realpaths[file]])]);
    }
  }

  /** Re-applying the persistence changes nothing, which is why every write may re-apply it. */
  lemma OverlayIdempotent(c: Value, p: Value)
    requires IsRegistry(c) && IsRegistry(p)
    ensures Overlay(Overlay(c, p), p) == Overlay(c, p)
  {
    if !IsEmptyArr(p) {
      Idempotent(c, p);
    }
  }

  /** The persistence brings in its own services and instances, whether or not any was set. */
  lemma PersistenceAdds(c: Value, p: Value, n: Key, i: Key)
    requires IsRegistry(c) && IsRegistry(p) && n in p.vals && i in p.vals[n].vals
    ensures Entry(Overlay(c, p), n, i).Some? <==> !p.vals[n].vals[i].Null?
  {
    if n in c.vals {
      ArraysRecurse(c, p, n);
      if i in c.vals[n].vals && c.vals[n].vals[i].Arr? && p.vals[n].vals[i].Arr? {
        ArraysRecurse(c.vals[n], p.vals[n], i);
      } else {
        OverlayWins(c.vals[n], p.vals[n], i);
      }
    } else {
      OverlayWins(c, p, n);
    }
  }

  /**
   * A service the persistence holds instances of is never empty once the
   * persistence has been applied, so `get` never loads its file.
   */
  lemma InjectedNeverLoaded(c: Value, p: Value, n: Key)
    requires IsRegistry(c) && IsRegistry(p) && n in p.vals && !IsEmptyArr(p.vals[n])
    ensures !NeedsLoad(Overlay(c, p), n)
  {
    if n in c.vals {
      ArraysRecurse(c, p, n);
    } else {
      OverlayWins(c, p, n);
    }
  }

  /** The first `k` entries of an array, in order. */
  function Prefix(v: Value, k: nat): (r: Value)
    requires v.Arr? && k <= |v.keys|
    ensures r.Arr? && r.keys == v.keys[..k]
  {
    Arr(v.keys[..k], map n | n in v.keys[..k] && n in v.vals :: v.vals[n])
  }

  lemma PrefixSnoc(v: Value, k: nat)
    requires v.Arr? && WF(v) && k < |v.keys|
    ensures v.keys[k] !in Prefix(v, k).keys && v.keys[k] !in Prefix(v, k).vals
    ensures Put(Prefix(v, k), v.keys[k], v.vals[v.keys[k]]) == Prefix(v, k + 1)
  {
    var key := v.keys[k];
    assert key in (set x | x in v.keys);
    DistinctPrefix(v.keys, k);
    assert v.keys[..k + 1] == v.keys[..k] + [key];
    RestrictSnoc(v.vals, v.keys[..k], key);
  }

  lemma DistinctPrefix(keys: seq<Key>, k: nat)
    requires Distinct(keys) && k < |keys|
    ensures keys[k] !in keys[..k]
  {
    forall j | 0 <= j < k ensures keys[..k][j] != keys[k] {
      assert keys[..k][j] == keys[j];
    }
  }

  lemma RestrictSnoc(vals: map<Key, Value>, before: seq<Key>, key: Key)
    requires key in vals
    ensures (map n | n in before && n in vals :: vals[n])[key := vals[key]] == map n | n in before + [key] && n in vals :: vals[n]
  {
    var m := map n | n in before && n in vals :: vals[n];
    var m' := map n | n in before + [key] && n in vals :: vals[n];
    forall n | n in m' ensures n in m[key := vals[key]] {
      if n != key {
        assert n in before;
      }
    }
    assert m[key := vals[key]] == m';
  }

  lemma PrefixAll(v: Value)
    requires v.Arr? && WF(v)
    ensures Prefix(v, |v.keys|) == v
  {
    assert v.keys[..|v.keys|] == v.keys;
    assert Prefix(v, |v.keys|).vals == v.vals;
  }

  /** Array keys as PHP makes them: strings that are not integers. */
  ghost predicate StringKeys(v: Value) {
    v.Arr? && forall k | k in v.vals :: k.StrKey? && NormKey(k.s) == k
  }

  /**
   * Services as `setMany` expects them: string-keyed, each a non-empty
   * string-keyed array of instances, each instance an array.
   */
  ghost predicate WellFormedServices(v: Value) {
    && WF(v) && StringKeys(v)
    && forall n | n in v.vals ::
      && StringKeys(v.vals[n]) && v.vals[n].vals != map[]
      && forall i | i in v.vals[n].vals :: v.vals[n].vals[i].Arr?
  }

  /** Without persistence a `set` is the bare store. */
  lemma StoredWithoutPersistence(c: Value, name: string, instance: string, v: Value)
    requires IsRegistry(c)
    ensures Stored(c, Empty, name, instance, v) == Store(c, NormKey(name), NormKey(instance), v)
  {
  }

  /** Setting a new service's instances one by one, with no persistence, writes them in order. */
  lemma {:induction false} InstancesRebuilt(c: Value, key: Key, pairs: seq<(Key, Value)>, m: nat)
    requires IsRegistry(c) && key.StrKey? && NormKey(key.s) == key && key !in c.vals
    requires forall j | 0 <= j < |pairs| :: pairs[j].0.StrKey? && NormKey(pairs[j].0.s) == pairs[j].0 && pairs[j].1.Arr?
    requires 1 <= m <= |pairs|
    ensures SetInstances(c, Empty, key, pairs[..m]) == Run(Put(c, key, FromPairs(pairs[..m])), Pass)
    decreases m
  {
    SetInstancesStep(c, Empty, key, pairs, m - 1);
    var k := pairs[m - 1].0;
    var x := pairs[m - 1].1;
    var before := FromPairs(pairs[..m - 1]);
    assert pairs[..m][..m - 1] == pairs[..m - 1];
    assert FromPairs(pairs[..m]) == Put(before, k, x);
    var current := if m == 1 then c else Put(c, key, before);
    if m == 1 {
      assert pairs[..0] == [];
    } else {
      InstancesRebuilt(c, key, pairs, m - 1);
      PutTwice(c, key, before, Put(before, k, x));
    }
    assert SetInstances(c, Empty, key, pairs[..m - 1]) == Run(current, Pass);
    SetCallWithoutPersistence(current, key, k, x);
  }

  /** Writing an array's entries in order into `[]` rebuilds it. */
  lemma {:induction false} EntriesRebuild(w: Value, e: seq<(Key, Value)>, k: nat)
    requires w.Arr? && WF(w) && |e| == |w.keys| && k <= |e|
    requires forall i | 0 <= i < |e| :: e[i].0 == w.keys[i] && e[i].0 in w.vals && e[i].1 == w.vals[e[i].0]
    ensures FromPairs(e[..k]) == Prefix(w, k)
  {
    if k == 0 {
      PrefixEmpty(w);
    } else {
      EntriesRebuild(w, e, k - 1);
      assert e[..k][..k - 1] == e[..k - 1];
      PrefixSnoc(w, k - 1);
    }
  }

  lemma PrefixEmpty(w: Value)
    requires w.Arr?
    ensures Prefix(w, 0) == Empty
  {
    assert w.keys[..0] == [];
  }

  /** A new service set with all its instances, with no persistence, is stored as given. */
  lemma ServiceRebuilt(c: Value, key: Key, w: Value)
    requires IsRegistry(c) && key.StrKey? && NormKey(key.s) == key && key !in c.vals
    requires WF(w) && StringKeys(w) && w.vals != map[] && forall i | i in w.vals :: w.vals[i].Arr?
    ensures SetInstances(c, Empty, key, Entries(w)) == Run(Put(c, key, w), Pass)
  {
    assert |w.keys| >= 1 by {
      var i :| i in w.vals;
      assert i in (set x | x in w.keys);
    }
    var e := Entries(w);
    assert e[..|e|] == e;
    InstancesRebuilt(c, key, e, |e|);
    EntriesRebuild(w, e, |w.keys|);
    PrefixAll(w);
  }

  lemma {:induction false} ServicesRebuilt(v: Value, k: nat)
    requires WellFormedServices(v) && k <= |v.keys|
    ensures SetManyRun(Empty, Empty, Entries(v)[..k]) == Run(Prefix(v, k), Pass)
  {
    var e := Entries(v);
    if k == 0 {
      assert e[..0] == [];
      assert Prefix(v, 0) == Empty;
    } else {
      var key := v.keys[k - 1];
      var w := v.vals[key];
      ServicesRebuilt(v, k - 1);
      SetManyStep(Empty, Empty, e, k - 1);
      PrefixSnoc(v, k - 1);
      assert e[k - 1] == (key, w);
      ServiceRebuilt(Prefix(v, k - 1), key, w);
    }
  }

  /**
   * Arrays given to the constructor are stored exactly as given, before any
   * persistence: `getAll` returns them, and `getInstances` returns each
   * service's instances.
   */
  lemma ConstructedUnchanged(v: Value)
    requires WellFormedServices(v)
    ensures SetManyRun(Empty, Empty, Entries(v)) == Run(v, Pass)
  {
    ServicesRebuilt(v, |v.keys|);
    assert Entries(v)[..|v.keys|] == Entries(v);
    PrefixAll(v);
  }
}
