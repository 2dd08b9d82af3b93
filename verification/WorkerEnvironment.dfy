/** The whole environment of the worker, variable by variable. */
module WorkerEnvironment {
  import opened Prelude
  import opened Secrets

  /** The values of the service secrets in order, each after a newline. */
  function ServiceText(values: seq<string>): string {
    if values == [] then "" else "\n" + values[0] + ServiceText(values[1..])
  }

  function ServiceValues(secrets: seq<Secret>): seq<string> {
    if secrets == [] then []
    else (if secrets[0].kind.PgService? then [secrets[0].value] else []) + ServiceValues(secrets[1..])
  }

  lemma {:induction false} ServiceTextOfMore(values: seq<string>, v: string)
    ensures ServiceText(values + [v]) == ServiceText(values) + "\n" + v
  {
    if values == [] {
      assert ServiceText([v]) == "\n" + v + ServiceText([]);
      assert [] + [v] == [v] && ServiceText([]) == "";
    } else {
      assert (values + [v])[1..] == values[1..] + [v];
      ServiceTextOfMore(values[1..], v);
      assert ServiceText(values + [v]) == "\n" + values[0] + ServiceText(values[1..] + [v]);
    }
  }

  /** So each service secret stands for itself, in its place. */
  lemma {:induction false} ServiceValuesOfParts(before: seq<Secret>, s: Secret, rest: seq<Secret>)
    ensures ServiceValues(before + [s] + rest)
         == ServiceValues(before) + (if s.kind.PgService? then [s.value] else []) + ServiceValues(rest)
  {
    var all := before + [s] + rest;
    if before == [] {
      assert all[0] == s && all[1..] == rest;
      assert ServiceValues([]) == [];
    } else {
      assert all[0] == before[0] && all[1..] == before[1..] + [s] + rest;
      ServiceValuesOfParts(before[1..], s, rest);
    }
  }

  /** The service file is made of the values of all service secrets, in order. */
  lemma {:induction false} PgServicesAre(secrets: seq<Secret>, n: nat)
    requires n <= |secrets|
    ensures PgServices(secrets, n) == ServiceText(ServiceValues(secrets[..n]))
  {
    if n > 0 {
      PgServicesAre(secrets, n - 1);
      var before, s := secrets[..n - 1], secrets[n - 1];
      assert secrets[..n] == before + [s];
      assert before + [s] + [] == before + [s];
      ServiceValuesOfParts(before, s, []);
      assert ServiceValues(before) + [] + [] == ServiceValues(before);
      assert ServiceValues([]) == [];
      if s.kind.PgService? {
        ServiceTextOfMore(ServiceValues(before), s.value);
        var text := ServiceText(ServiceValues(before));
        assert text + ("\n" + s.value) == text + "\n" + s.value;
        assert ServiceValues(before) + [s.value] + [] == ServiceValues(before) + [s.value];
      } else {
        assert PgServices(secrets, n - 1) + "" == PgServices(secrets, n - 1);
      }
    }
  }

  /** The names of the variables that secrets and deployment add. */
  ghost predicate IsExtra(secrets: seq<Secret>, customCa: Option<string>, name: string) {
    || (exists i :: 0 <= i < |secrets| && secrets[i].kind.EnvVar? && secrets[i].name == name)
    || (customCa.Some? && name == "REQUESTS_CA_BUNDLE")
  }

  lemma {:induction false} ExtraNames(secrets: seq<Secret>, customCa: Option<string>, n: nat)
    requires n <= |secrets|
    ensures forall name :: name in ExtraVars(StartVars(customCa), secrets, n) <==> IsExtra(secrets[..n], customCa, name)
  {
    if n == 0 {
      assert CA_BUNDLE == "REQUESTS_CA_BUNDLE";
    } else {
      ExtraNames(secrets, customCa, n - 1);
      var before, s := secrets[..n - 1], secrets[n - 1];
      assert secrets[..n] == before + [s];
      forall name
        ensures IsExtra(secrets[..n], customCa, name)
           <==> IsExtra(before, customCa, name) || (s.kind.EnvVar? && s.name == name)
      {
        if IsExtra(before, customCa, name) && !(customCa.Some? && name == "REQUESTS_CA_BUNDLE") {
          var i :| 0 <= i < |before| && before[i].kind.EnvVar? && before[i].name == name;
          assert secrets[..n][i] == before[i];
        }
        if s.kind.EnvVar? && s.name == name {
          assert secrets[..n][n - 1] == s;
        }
        if i :| 0 <= i < n && secrets[..n][i].kind.EnvVar? && secrets[..n][i].name == name {
          assert i < n - 1 ==> before[i] == secrets[..n][i];
        }
      }
    }
  }

  /** Main result on the environment: its variables are the reserved ones and the extra ones, the reserved
      ones have the values of the job, and two of them say what the secrets are: the service file, and the
      names of the extra variables, overridden ones included. */
  lemma EnvironmentIs(secrets: seq<Secret>, customCa: Option<string>, j: JobVars)
    ensures var extra := ExtraVars(StartVars(customCa), secrets, |secrets|);
      var env := Environment(extra, Reserved(j, PgServices(secrets, |secrets|), extra.Keys));
      && (forall name :: name in env <==> name in RESERVED || IsExtra(secrets, customCa, name))
      && RESERVED == {"PGSERVICE_FILE_CONTENTS", "QFIELDCLOUD_EXTRA_ENVVARS", "QFIELDCLOUD_TOKEN", "QFIELDCLOUD_URL",
                      "JOB_ID", "PROJ_DOWNLOAD_DIR", "QT_QPA_PLATFORM"}
      && env["PGSERVICE_FILE_CONTENTS"] == Plain(ServiceText(ServiceValues(secrets)))
      && env["QFIELDCLOUD_EXTRA_ENVVARS"].Names?
      && (forall name :: name in env["QFIELDCLOUD_EXTRA_ENVVARS"].names <==> IsExtra(secrets, customCa, name))
      && env["QFIELDCLOUD_TOKEN"] == Plain(j.token) && env["QFIELDCLOUD_URL"] == Plain(j.url)
      && env["JOB_ID"] == Plain(j.jobId) && env["PROJ_DOWNLOAD_DIR"] == Plain(j.grids)
      && env["QT_QPA_PLATFORM"] == Plain("offscreen")
  {
    var extra := ExtraVars(StartVars(customCa), secrets, |secrets|);
    var services := PgServices(secrets, |secrets|);
    assert secrets[..|secrets|] == secrets;
    PgServicesAre(secrets, |secrets|);
    ExtraNames(secrets, customCa, |secrets|);
    hide PgServices, ExtraVars, StartVars, ServiceText, ServiceValues, IsExtra;
    ReservedNames(j, services, extra.Keys);
    ReservedValues(j, services, extra.Keys);
    EnvKeys(extra, Reserved(j, services, extra.Keys));
    hide Reserved, Environment;
  }

  lemma EnvKeys(extra: map<string, string>, reserved: map<string, EnvValue>)
    ensures Environment(extra, reserved).Keys == extra.Keys + reserved.Keys
    ensures forall name :: name in reserved ==> Environment(extra, reserved)[name] == reserved[name]
  {
  }

  lemma ReservedValues(j: JobVars, services: string, names: set<string>)
    ensures var r := Reserved(j, services, names);
      && r.Keys == {"PGSERVICE_FILE_CONTENTS", "QFIELDCLOUD_EXTRA_ENVVARS", "QFIELDCLOUD_TOKEN", "QFIELDCLOUD_URL",
                    "JOB_ID", "PROJ_DOWNLOAD_DIR", "QT_QPA_PLATFORM"}
      && r["PGSERVICE_FILE_CONTENTS"] == Plain(services) && r["QFIELDCLOUD_EXTRA_ENVVARS"] == Names(names)
      && r["QFIELDCLOUD_TOKEN"] == Plain(j.token) && r["QFIELDCLOUD_URL"] == Plain(j.url)
      && r["JOB_ID"] == Plain(j.jobId) && r["PROJ_DOWNLOAD_DIR"] == Plain(j.grids)
      && r["QT_QPA_PLATFORM"] == Plain("offscreen")
  {
    assert "PGSERVICE_FILE_CONTENTS"[1] == 'G' && "PROJ_DOWNLOAD_DIR"[1] == 'R' && "JOB_ID"[0] == 'J';
    assert "QFIELDCLOUD_TOKEN"[12] == 'T' && "QFIELDCLOUD_URL"[12] == 'U' && "QFIELDCLOUD_EXTRA_ENVVARS"[12] == 'E';
    assert "QT_QPA_PLATFORM"[1] == 'T' && "QFIELDCLOUD_TOKEN"[1] == 'F';
  }
}
