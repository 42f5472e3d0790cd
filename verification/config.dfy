/** Service configuration (`infra/config.py`): an INI file read with
    Python's `SafeConfigParser` plus environment overrides. The file's
    contents, the environment and the home directory are parameters. */
module Config {
  import opened Wrappers
  import opened Strings

  /** A parsed INI file: the parser's defaults and each section's options. */
  datatype IniFile = IniFile(defaults: map<string, string>, sections: map<string, map<string, string>>)

  datatype IniError = NoSectionError(section: string) | NoOptionError(section: string, option: string)

  /** `has_option`: the section exists and names the option, or the
      parser's defaults do. */
  predicate HasOption(f: IniFile, section: string, option: string) {
    section in f.sections && (option in f.sections[section] || option in f.defaults)
  }

  /** `get(section, option)`: the section's value wins over the defaults.
      Value interpolation is not modelled. */
  function Get(f: IniFile, section: string, option: string): (r: Result<string, IniError>)
    ensures r.Success? <==> HasOption(f, section, option)
    ensures r.Success? && option in f.sections[section] ==> r.value == f.sections[section][option]
    ensures r.Success? && option !in f.sections[section] ==> r.value == f.defaults[option]
    ensures section !in f.sections ==> r == Failure(NoSectionError(section))
  {
    if section !in f.sections then Failure(NoSectionError(section))
    else if option in f.sections[section] then Success(f.sections[section][option])
    else if option in f.defaults then Success(f.defaults[option])
    else Failure(NoOptionError(section, option))
  }

  /** A setting: where it lives in the file and which variable overrides it. */
  datatype Setting = Setting(section: string, option: string, envKey: string)

  const IsolateHome := Setting("isolate", "home", "ISOLATE_HOME")
  const IsolateServer := Setting("isolate", "server", "ISOLATE_SERVER")
  const IsolateCacheDir := Setting("isolate", "cache_dir", "ISOLATE_CACHE_DIR")
  const AwsAccessKey := Setting("aws", "access_key", "AWS_ACCESS_KEY")
  const AwsSecretKey := Setting("aws", "secret_key", "AWS_SECRET_KEY")
  const AwsTestResultBucket := Setting("aws", "test_result_bucket", "TEST_RESULT_BUCKET")
  const MysqlHost := Setting("mysql", "host", "MYSQL_HOST")
  const MysqlPort := Setting("mysql", "port", "MYSQL_PORT")
  const MysqlUser := Setting("mysql", "user", "MYSQL_USER")
  const MysqlPwd := Setting("mysql", "password", "MYSQL_PWD")
  const MysqlDb := Setting("mysql", "database", "MYSQL_DB")
  const BeanstalkHost := Setting("beanstalk", "host", "BEANSTALK_HOST")
  const DistTestMaster := Setting("dist_test", "master", "DIST_TEST_MASTER")
  const DistTestJobPath := Setting("dist_test", "job_path", "DIST_TEST_JOB_PATH")
  const DistTestUser := Setting("dist_test", "user", "DIST_TEST_USER")
  const DistTestPassword := Setting("dist_test", "password", "DIST_TEST_PASSWORD")
  const DistTestResultServer := Setting("dist_test", "result_server", "DIST_TEST_RESULT_SERVER")
  const DistTestTempDir := Setting("dist_test", "temp_dir", "DIST_TEST_TEMP_DIR")

  /** `_get_with_env_override`: a set environment variable wins, even when
      empty; otherwise the file's value if it has the option; otherwise
      nothing. */
  function GetWithEnvOverride(env: map<string, string>, f: IniFile, s: Setting): (r: Option<string>)
    ensures s.envKey in env ==> r == Some(env[s.envKey])
    ensures s.envKey !in env && HasOption(f, s.section, s.option) ==> r == Some(Get(f, s.section, s.option).value)
    ensures r.None? <==> s.envKey !in env && !HasOption(f, s.section, s.option)
  {
    if s.envKey in env then Some(env[s.envKey])
    else if HasOption(f, s.section, s.option) then Some(Get(f, s.section, s.option).value)
    else None
  }

  /** The parser defaults every configuration starts from; `logDir` is the
      `logs` directory beside the module. */
  function Defaults(logDir: string): (d: map<string, string>)
    ensures d.Keys == {"log_dir", "submit_gce_metrics", "allowed_ip_ranges", "accounts"}
  {
    map["log_dir" := logDir,
        "submit_gce_metrics" := "True",
        "allowed_ip_ranges" := "0.0.0.0/0",
        "accounts" := "{}"]
  }

  const DefaultMysqlPort: int := 3306

  /** `int(...)` of the port setting, falling back to 3306 when the setting
      is absent or not an integer. */
  function MysqlPortOf(value: Option<string>): (port: int)
    ensures value.Some? && ParseInt(value.value).Some? ==> port == ParseInt(value.value).value
    ensures value.None? || ParseInt(value.value).None? ==> port == DefaultMysqlPort
  {
    if value.Some? && ParseInt(value.value).Some? then ParseInt(value.value).value else DefaultMysqlPort
  }

  /** A port written as `str(p)`, in the environment or the file, is read
      back as `p`; a missing setting gives 3306. */
  lemma MysqlPortRoundTrip(p: int)
    ensures MysqlPortOf(Some(IntToString(p))) == p
    ensures MysqlPortOf(None) == DefaultMysqlPort
  {
    ParseIntOfIntToString(p);
  }

  /** `MYSQL_PORT=<p>` in the environment sets the port, whatever the file
      says. */
  lemma LoadPortFromEnv(env: map<string, string>, sections: map<string, map<string, string>>, home: string, logDir: string, p: int)
    requires "MYSQL_PORT" in env && env["MYSQL_PORT"] == IntToString(p)
    ensures Load(env, sections, home, logDir).mysqlPort == p
  {
    MysqlPortRoundTrip(p);
  }

  /** `os.path.expanduser` of a path starting with `~/`, given `$HOME`:
      trailing slashes of the home directory are dropped. */
  function ExpandUser(home: string, rest: string): (p: string)
    ensures EndsWith(p, "/" + rest)
    ensures var h := p[..|p| - |rest| - 1];
      StartsWith(home, h) && (|h| == 0 || h[|h| - 1] != '/')
      && forall i :: |h| <= i < |home| ==> home[i] == '/'
  {
    var h := RStrip(home, '/');
    assert (h + "/" + rest)[..|h|] == h;
    h + "/" + rest
  }

  /** A trailing slash on `$HOME` does not change the expansion. */
  lemma ExpandUserTrailingSlash(home: string, rest: string)
    ensures ExpandUser(home + "/", rest) == ExpandUser(home, rest)
  {
    assert (home + "/")[..|home|] == home;
  }

  /** The values a `Config` object carries after construction. */
  datatype Values = Values(
    mysqlPort: int,
    jobPath: string,
    user: Option<string>,
    master: Option<string>,
    allowedIpRanges: string,
    accounts: string,
    logDir: string)

  /** Adds an empty `dist_test` section when the file lacks one. */
  function WithDistTestSection(f: IniFile): (g: IniFile)
    ensures "dist_test" in g.sections && g.defaults == f.defaults
    ensures forall s :: s in f.sections ==> s in g.sections && g.sections[s] == f.sections[s]
  {
    if "dist_test" in f.sections then f else f.(sections := f.sections["dist_test" := map[]])
  }

  /** `Config.__init__` for the settings with a decision in them: the file
      is `sections` over the built-in defaults. */
  function Load(env: map<string, string>, sections: map<string, map<string, string>>, home: string, logDir: string): (c: Values)
    ensures c.mysqlPort == MysqlPortOf(GetWithEnvOverride(env, IniFile(Defaults(logDir), sections), MysqlPort))
    ensures c.jobPath == GetWithEnvOverride(env, IniFile(Defaults(logDir), sections), DistTestJobPath)
                           .GetOr(ExpandUser(home, ".dist-test-last-job"))
    ensures "dist_test" !in sections || "allowed_ip_ranges" !in sections["dist_test"] ==> c.allowedIpRanges == "0.0.0.0/0"
    ensures "dist_test" in sections && "allowed_ip_ranges" in sections["dist_test"] ==>
              c.allowedIpRanges == sections["dist_test"]["allowed_ip_ranges"]
    ensures "dist_test" !in sections || "accounts" !in sections["dist_test"] ==> c.accounts == "{}"
    ensures "dist_test" in sections && "accounts" in sections["dist_test"] ==> c.accounts == sections["dist_test"]["accounts"]
    ensures c.logDir == if "dist_test" in sections && "log_dir" in sections["dist_test"] then sections["dist_test"]["log_dir"] else logDir
    ensures c.user == if "DIST_TEST_USER" in env then Some(env["DIST_TEST_USER"])
                      else if "dist_test" in sections && "user" in sections["dist_test"] then Some(sections["dist_test"]["user"])
                      else None
    ensures c.master == if "DIST_TEST_MASTER" in env then Some(env["DIST_TEST_MASTER"])
                        else if "dist_test" in sections && "master" in sections["dist_test"] then Some(sections["dist_test"]["master"])
                        else None
  {
    var f := WithDistTestSection(IniFile(Defaults(logDir), sections));
    var jobPath := GetWithEnvOverride(env, f, DistTestJobPath);
    Values(
      MysqlPortOf(GetWithEnvOverride(env, f, MysqlPort)),
      jobPath.GetOr(ExpandUser(home, ".dist-test-last-job")),
      GetWithEnvOverride(env, f, DistTestUser),
      GetWithEnvOverride(env, f, DistTestMaster),
      Get(f, "dist_test", "allowed_ip_ranges").value,
      Get(f, "dist_test", "accounts").value,
      Get(f, "dist_test", "log_dir").value)
  }

  /** The loaded values depend on the environment and on the `mysql` and
      `dist_test` sections only: files that agree on those two sections
      load alike, whatever else they hold. */
  lemma LoadReadsTwoSections(env: map<string, string>, s1: map<string, map<string, string>>, s2: map<string, map<string, string>>, home: string, logDir: string)
    requires forall s :: s in {"mysql", "dist_test"} ==> (s in s1 <==> s in s2) && (s in s1 ==> s1[s] == s2[s])
    ensures Load(env, s1, home, logDir) == Load(env, s2, home, logDir)
  {
    assert "mysql" in {"mysql", "dist_test"} && "dist_test" in {"mysql", "dist_test"};
    var f1, f2 := IniFile(Defaults(logDir), s1), IniFile(Defaults(logDir), s2);
    assert GetWithEnvOverride(env, f1, MysqlPort) == GetWithEnvOverride(env, f2, MysqlPort);
    assert GetWithEnvOverride(env, f1, DistTestJobPath) == GetWithEnvOverride(env, f2, DistTestJobPath);
  }

  /** `_ensure_configs`: raises naming the first setting with no value. */
  function EnsureConfigs(env: map<string, string>, f: IniFile, settings: seq<Setting>): (r: Result<(), Setting>)
    ensures r.Success? <==> forall i :: 0 <= i < |settings| ==> GetWithEnvOverride(env, f, settings[i]).Some?
    ensures r.Failure? ==> exists i :: 0 <= i < |settings| && settings[i] == r.error
                                      && GetWithEnvOverride(env, f, settings[i]).None?
                                      && forall j :: 0 <= j < i ==> GetWithEnvOverride(env, f, settings[j]).Some?
  {
    if |settings| == 0 then Success(())
    else if GetWithEnvOverride(env, f, settings[0]).None? then Failure(settings[0])
    else
      var r := EnsureConfigs(env, f, settings[1..]);
      if r.Failure? then
        ghost var i :| 0 <= i < |settings[1..]| && settings[1..][i] == r.error
                       && GetWithEnvOverride(env, f, settings[1..][i]).None?
                       && forall j :: 0 <= j < i ==> GetWithEnvOverride(env, f, settings[1..][j]).Some?;
        assert settings[i + 1] == r.error;
        r
      else r
  }

  /** `configure_auth` installs digest authentication only for a non-empty
      user. */
  predicate ConfiguresAuth(user: Option<string>) {
    user.Some? && |user.value| > 0
  }

  /** Authentication is configured exactly for a non-empty user, taken from
      `DIST_TEST_USER` when that is set and from the `dist_test` section
      otherwise: an empty variable switches it off whatever the file says. */
  lemma LoadConfiguresAuth(env: map<string, string>, sections: map<string, map<string, string>>, home: string, logDir: string)
    ensures ConfiguresAuth(Load(env, sections, home, logDir).user) <==>
      if "DIST_TEST_USER" in env then env["DIST_TEST_USER"] != ""
      else "dist_test" in sections && "user" in sections["dist_test"] && sections["dist_test"]["user"] != ""
  {
  }
}
