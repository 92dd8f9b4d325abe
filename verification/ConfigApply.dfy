/** Activation of a router configuration: validate, write, restart, check, roll back.
    The three state files are seen through the readers the rest of the system uses, and
    every failure but that of a restoring write may happen at any point. */
module ConfigApply {
  import opened Results
  import opened Text

  predicate Blank(c: char) {
    c == ' ' || c == '\t' || c == '\n' || c == '\r'
  }

  function TrimEnd(s: string): (r: string)
    ensures r <= s && (r == [] || !Blank(r[|r| - 1]))
  {
    if s != [] && Blank(s[|s| - 1]) then TrimEnd(s[..|s| - 1]) else s
  }

  /** Python's `s.strip()`. */
  function Trim(s: string): (r: string)
    ensures r == [] || (!Blank(r[0]) && !Blank(r[|r| - 1]))
  {
    if s != [] && Blank(s[0]) then Trim(s[1..]) else TrimEnd(s)
  }

  lemma {:induction false} TrimLine(s: string)
    requires s == [] || (!Blank(s[0]) && !Blank(s[|s| - 1]))
    ensures Trim(s) == s && Trim(s + "\n") == s
  {}

  // ----- what a caller asks for -----

  /** The fields that activation itself looks at. */
  datatype Candidate = Candidate(namespacePrefix: string, publishPrefix: string, tlsProfile: string)

  predicate PrefixChar(c: char) {
    'A' <= c <= 'Z' || 'a' <= c <= 'z' || '0' <= c <= '9' || c == '.' || c == '_' || c == '/' || c == '-'
  }

  /** The field validators: a non-empty namespace prefix, to which the pattern used there
      also admits one final line feed, and a publish prefix stripped of slashes. */
  predicate ValidCandidate(f: Candidate) {
    && f.namespacePrefix != []
    && (forall i | 0 <= i < |f.namespacePrefix| ::
          PrefixChar(f.namespacePrefix[i]) || (i > 0 && i == |f.namespacePrefix| - 1 && f.namespacePrefix[i] == '\n'))
    && (forall i | 0 <= i < |f.publishPrefix| :: PrefixChar(f.publishPrefix[i]))
    && (f.publishPrefix == [] || (f.publishPrefix[0] != '/' && f.publishPrefix[|f.publishPrefix| - 1] != '/'))
  }

  // ----- what the environment does -----

  /** A write that fails may leave anything behind in its file. */
  datatype WriteFault = NoFault | ConfigFault(text: string) | PrefixFault(left: Option<string>) | DataFault(left: Option<string>)

  datatype Outcomes = Outcomes(
    valid: bool,
    readable: bool,
    snapshotFails: bool,
    fault: WriteFault,
    restarts: bool,
    healthy: bool,
    linked: bool,
    rollbackRestarts: bool,
    rollbackHealthy: bool)

  datatype Status = Applied | Rejected | RolledBack | Failed | Raised

  /** When a candidate gets through: every check in turn succeeds. */
  predicate Succeeds(f: Candidate, preserveManagement: bool, env: Outcomes) {
    && f.tlsProfile != "backbone" && env.valid && env.readable && !env.snapshotFails && env.fault.NoFault?
    && env.restarts && env.healthy && (preserveManagement ==> env.linked)
  }

  /** The reported status for every pattern of failures. */
  function Verdict(f: Candidate, preserveManagement: bool, env: Outcomes): Status {
    if f.tlsProfile == "backbone" || !env.valid || !env.readable then Rejected
    else if env.snapshotFails then Raised
    else if !env.fault.NoFault? then Rejected
    else if env.restarts && env.healthy && (preserveManagement ==> env.linked) then Applied
    else if env.rollbackRestarts && env.rollbackHealthy then RolledBack
    else Failed
  }

  class Router {
    const environmentPrefix: string
    const environmentData: Option<string>
    var config: string
    var prefixFile: Option<string>
    var dataFile: Option<string>
    var lastKnownGood: Option<string>
    var dictionary: Option<string>
    /** The configuration of a router that is up and healthy, if there is one. */
    var running: Option<string>

    constructor (environmentPrefix: string, environmentData: Option<string>, config: string)
      ensures this.environmentPrefix == environmentPrefix && this.environmentData == environmentData
      ensures this.config == config && prefixFile == None && dataFile == None
      ensures lastKnownGood == None && dictionary == None && running == None
    {
      this.environmentPrefix := environmentPrefix;
      this.environmentData := environmentData;
      this.config := config;
      prefixFile, dataFile, lastKnownGood, dictionary, running := None, None, None, None, None;
    }

    /** `_read_prefix_file`. */
    function ReadPrefix(): (r: string)
      reads this`prefixFile
      ensures prefixFile.Some? && Trim(prefixFile.value) != "" ==> r == Trim(prefixFile.value)
      ensures prefixFile.None? || Trim(prefixFile.value) == "" ==> r == environmentPrefix
    {
      if prefixFile.Some? && Trim(prefixFile.value) != "" then Trim(prefixFile.value) else environmentPrefix
    }

    /** `_read_data_prefix_file`. */
    function ReadData(): (r: string)
      reads this`prefixFile, this`dataFile
      ensures dataFile.Some? ==> r == Strip(Trim(dataFile.value))
      ensures dataFile.None? && environmentData.Some? ==> r == Strip(Trim(environmentData.value))
      ensures dataFile.None? && environmentData.None? ==> r == ReadPrefix()
    {
      if dataFile.Some? then Strip(Trim(dataFile.value))
      else if environmentData.Some? then Strip(Trim(environmentData.value))
      else ReadPrefix()
    }

    /** Writing back what the readers report does not change what they report. */
    predicate Valid()
      reads this`prefixFile, this`dataFile
    {
      && (Trim(ReadPrefix() + "\n") == ReadPrefix() || (Trim(ReadPrefix() + "\n") == "" && ReadPrefix() == environmentPrefix))
      && Strip(Trim(ReadData() + "\n")) == ReadData()
    }

    /** The previous state of the files, restored by the same writers. */
    method Restore(previousConfig: string, previousPrefix: string, previousData: string)
      modifies this`config, this`prefixFile, this`dataFile
      ensures config == previousConfig
      ensures prefixFile == Some(previousPrefix + "\n") && dataFile == Some(previousData + "\n")
    {
      config := previousConfig;
      prefixFile := Some(previousPrefix + "\n");
      dataFile := Some(previousData + "\n");
    }

    /** The three writes of a candidate, up to the first that fails. */
    method WriteCandidate(rendered: string, f: Candidate, fault: WriteFault) returns (ok: bool)
      modifies this`config, this`prefixFile, this`dataFile
      ensures ok == fault.NoFault?
      ensures ok ==> config == rendered && prefixFile == Some(f.namespacePrefix + "\n") && dataFile == Some(f.publishPrefix + "\n")
    {
      if fault.ConfigFault? {
        config := fault.text;
        return false;
      }
      config := rendered;
      if fault.PrefixFault? {
        prefixFile := fault.left;
        return false;
      }
      prefixFile := Some(f.namespacePrefix + "\n");
      if fault.DataFault? {
        dataFile := fault.left;
        return false;
      }
      dataFile := Some(f.publishPrefix + "\n");
      return true;
    }

    method Restart(restarts: bool, healthy: bool) returns (up: bool)
      modifies this`running
      ensures up == (restarts && healthy)
      ensures running == if up then Some(config) else None
    {
      up := restarts && healthy;
      running := if up then Some(config) else None;
    }

    /** `apply_rendered_config`: all new, or all as before. */
    method Apply(rendered: string, f: Candidate, preserveManagement: bool, env: Outcomes) returns (status: Status)
      requires Valid() && ValidCandidate(f)
      modifies this`config, this`prefixFile, this`dataFile, this`lastKnownGood, this`running
      ensures Valid()
      ensures status == Verdict(f, preserveManagement, env)
      ensures status == Applied <==> Succeeds(f, preserveManagement, env)
      ensures status == Raised <==> f.tlsProfile != "backbone" && env.valid && env.readable && env.snapshotFails
      ensures status == RolledBack || status == Failed <==>
        && f.tlsProfile != "backbone" && env.valid && env.readable && !env.snapshotFails && env.fault.NoFault?
        && (!env.restarts || !env.healthy || (preserveManagement && !env.linked))
      ensures status == RolledBack ==> env.rollbackRestarts && env.rollbackHealthy
      ensures status == Failed ==> !env.rollbackRestarts || !env.rollbackHealthy
      ensures lastKnownGood == if f.tlsProfile == "backbone" || !env.valid || !env.readable || env.snapshotFails
                               then old(lastKnownGood) else Some(old(config))
      ensures status == Applied ==>
        && config == rendered && ReadPrefix() == Trim(f.namespacePrefix) && ReadData() == f.publishPrefix
        && running == Some(rendered)
      ensures status != Applied ==>
        config == old(config) && ReadPrefix() == old(ReadPrefix()) && ReadData() == old(ReadData())
      ensures status == Rejected || status == Raised ==> running == old(running)
      ensures status == RolledBack ==> running == Some(old(config))
      ensures status == Failed ==> running == None
    {
      hide Trim, TrimEnd, Strip;
      if f.tlsProfile == "backbone" {
        return Rejected;
      }
      if !env.valid {
        return Rejected;
      }
      if !env.readable {
        return Rejected;
      }
      var previousConfig := config;
      var previousPrefix := ReadPrefix();
      var previousData := ReadData();
      if env.snapshotFails {
        return Raised;
      }
      lastKnownGood := Some(previousConfig);
      var written := WriteCandidate(rendered, f, env.fault);
      if !written {
        Restore(previousConfig, previousPrefix, previousData);
        return Rejected;
      }
      CandidateReadsBack(f);
      var up := Restart(env.restarts, env.healthy);
      if !up || (preserveManagement && !env.linked) {
        Restore(previousConfig, previousPrefix, previousData);
        var recovered := Restart(env.rollbackRestarts, env.rollbackHealthy);
        return if recovered then RolledBack else Failed;
      }
      return Applied;
    }

    /** `apply_acl`: the user dictionary goes with the configuration. They are both new or
        both old, except after two errors that are not caught here: when writing the
        dictionary fails, leaving whatever it left, and when saving the previous configuration
        fails, leaving a new dictionary beside the old configuration. */
    method ApplyAcl(rendered: string, newDictionary: string, f: Candidate, preserveManagement: bool,
                    dictionaryFault: Option<Option<string>>, env: Outcomes, restarts: bool, healthy: bool)
      returns (status: Status)
      requires Valid() && ValidCandidate(f)
      modifies this`config, this`prefixFile, this`dataFile, this`lastKnownGood, this`running, this`dictionary
      ensures Valid()
      ensures status == if dictionaryFault.Some? then Raised else Verdict(f, preserveManagement, env)
      ensures status == Applied ==> config == rendered && dictionary == Some(newDictionary) && running == Some(rendered)
      ensures status != Applied && status != Raised ==>
        && config == old(config) && dictionary == old(dictionary)
        && running == if restarts && healthy then Some(config) else None
      ensures status == Raised ==>
        && config == old(config) && running == old(running)
        && dictionary == if dictionaryFault.Some? then dictionaryFault.value else Some(newDictionary)
    {
      hide *;
      var previousDictionary := dictionary;
      if dictionaryFault.Some? {
        dictionary := dictionaryFault.value;
        return Raised;
      }
      dictionary := Some(newDictionary);
      status := Apply(rendered, f, preserveManagement, env);
      if status == Raised {
        return;
      }
      if status != Applied {
        dictionary := previousDictionary;
        var _ := Restart(restarts, healthy);
      }
    }
  }

  /** What each reported status means for the environment. */
  lemma VerdictExactly(f: Candidate, preserveManagement: bool, env: Outcomes)
    ensures var v := Verdict(f, preserveManagement, env);
            var staged := f.tlsProfile != "backbone" && env.valid && env.readable && !env.snapshotFails && env.fault.NoFault?;
            var up := env.restarts && env.healthy && (preserveManagement ==> env.linked);
            && (v == Applied <==> staged && up)
            && (v == RolledBack <==> staged && !up && env.rollbackRestarts && env.rollbackHealthy)
            && (v == Failed <==> staged && !up && !(env.rollbackRestarts && env.rollbackHealthy))
            && (v == Raised <==> f.tlsProfile != "backbone" && env.valid && env.readable && env.snapshotFails)
  {}

  lemma CandidateReadsBack(f: Candidate)
    requires ValidCandidate(f)
    ensures Trim(f.namespacePrefix + "\n") == Trim(f.namespacePrefix) != ""
    ensures Trim(Trim(f.namespacePrefix) + "\n") == Trim(f.namespacePrefix)
    ensures Trim(f.publishPrefix + "\n") == f.publishPrefix && Strip(f.publishPrefix) == f.publishPrefix
  {
    var p := f.namespacePrefix;
    TrimLine(f.publishPrefix);
    TrimNewline(p);
    TrimLine(Trim(p));
  }

  lemma {:induction false} TrimEndKeeps(s: string)
    requires s != [] && !Blank(s[0])
    ensures TrimEnd(s) != []
  {
    if Blank(s[|s| - 1]) {
      TrimEndKeeps(s[..|s| - 1]);
    }
  }

  /** A line end behind a text that begins with ink does not matter. */
  lemma TrimNewline(p: string)
    requires p != [] && !Blank(p[0])
    ensures Trim(p + "\n") == Trim(p) && Trim(p) != ""
  {}
}
