/**
 * The origins server.js accepts for cross-origin requests: the `ALLOWED_ORIGINS` setting,
 * the defaults used without it, and the rule `corsOptions.origin` applies.
 */
module Origins {
  import opened Wrappers
  import opened Text

  const DefaultOrigins: seq<string> := ["http://localhost:3000", "http://localhost:8000"]

  /** An entry `.filter(Boolean)` keeps once trimmed: non-empty, no white space at either end. */
  predicate CleanEntry(e: string)
  {
    e != [] && IsTrimmed(e)
  }

  /** `parts.map(o => o.trim()).filter(Boolean)`. */
  function Entries(parts: seq<string>): (r: seq<string>)
    ensures |r| <= |parts|
    ensures forall k | 0 <= k < |r| :: CleanEntry(r[k])
    ensures forall k | 0 <= k < |parts| && Trim(parts[k]) != [] :: Trim(parts[k]) in r
    ensures forall e | e in r :: exists k | 0 <= k < |parts| :: Trim(parts[k]) == e
  {
    if parts == [] then []
    else
      var rest := Entries(parts[1..]);
      var e := Trim(parts[0]);
      var r := if e == [] then rest else [e] + rest;
      assert forall k | 1 <= k < |parts| :: parts[k] == parts[1..][k - 1];
      r
  }

  /** `(process.env.ALLOWED_ORIGINS || '').split(',').map(o => o.trim()).filter(Boolean)`. */
  function AllowedOrigins(setting: Option<string>): seq<string>
  {
    Entries(Split(if Falsy(setting) then "" else setting.value, ','))
  }

  /** `SAFE_ORIGINS`: the configured origins, or the defaults when none are configured. */
  function SafeOrigins(setting: Option<string>): (r: seq<string>)
    ensures |r| >= 1
    ensures forall k | 0 <= k < |r| :: CleanEntry(r[k])
    ensures AllowedOrigins(setting) != [] ==> r == AllowedOrigins(setting)
    ensures AllowedOrigins(setting) == [] ==> r == DefaultOrigins
  {
    var allowed := AllowedOrigins(setting);
    if |allowed| > 0 then allowed else DefaultOrigins
  }

  /** The decision of `corsOptions.origin`: true for `callback(null, true)`, false for the error. */
  function CorsAllows(origin: Option<string>, safe: seq<string>): bool
  {
    Falsy(origin) || origin.value in safe
  }

  /** Without the setting the server accepts exactly the two local origins, and requests without an origin. */
  lemma UnsetUsesDefaults(origin: Option<string>)
    ensures SafeOrigins(None) == DefaultOrigins
    ensures CorsAllows(origin, SafeOrigins(None)) <==>
      origin.None? || origin.value == [] || origin.value == "http://localhost:3000" || origin.value == "http://localhost:8000"
  {
    assert Split("", ',') == [""];
    assert Trim("") == [];
    assert Entries([""]) == [];
  }

  lemma {:induction false} EntriesOfClean(parts: seq<string>)
    requires forall k | 0 <= k < |parts| :: CleanEntry(parts[k])
    ensures Entries(parts) == parts
  {
    if parts != [] {
      TrimOfTrimmed(parts[0]);
      EntriesOfClean(parts[1..]);
      assert parts == [parts[0]] + parts[1..];
    }
  }

  /** A setting that lists clean origins separated by commas configures exactly those origins. */
  lemma ConfiguredOrigins(origins: seq<string>)
    requires |origins| >= 1
    requires forall k | 0 <= k < |origins| :: CleanEntry(origins[k]) && ',' !in origins[k]
    ensures AllowedOrigins(Some(Join(origins, ','))) == origins
    ensures SafeOrigins(Some(Join(origins, ','))) == origins
  {
    var setting := Join(origins, ',');
    SplitJoin(origins, ',');
    EntriesOfClean(origins);
  }

  /**
   * Configuring origins replaces the defaults: an origin the setting does not list is
   * refused even when it is one of the defaults.
   */
  lemma ConfiguredReplacesDefaults(origins: seq<string>, origin: string)
    requires |origins| >= 1
    requires forall k | 0 <= k < |origins| :: CleanEntry(origins[k]) && ',' !in origins[k]
    requires origin != [] && origin !in origins
    ensures !CorsAllows(Some(origin), SafeOrigins(Some(Join(origins, ','))))
  {
    ConfiguredOrigins(origins);
  }
}
