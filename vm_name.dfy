/**
 Choosing the VM name: the `vmName` configuration value when it is set and
 non-empty, otherwise `wp-` followed by the `BUILD_NUMBER` environment value
 when that is set and non-empty, otherwise `wp-` followed by the current UTC
 time as `YYYYMMDDHHMMSS`; whichever is chosen is sanitised. Reading the
 configuration, the environment and the clock is left to the caller: the
 three values are parameters.
 */
module VmName {
  import opened Labels
  import opened Sanitizer

  datatype Option<T> = None | Some(value: T)

  /** Python truthiness of an optional string: present and non-empty. */
  predicate Truthy(o: Option<string>) {
    o.Some? && o.value != []
  }

  /** Prefix of the fallback names. */
  const FallbackPrefix: string := "wp-"

  /** The VM name chosen from the configured name, the build number and the timestamp. */
  function ChooseName(cfg: Option<string>, build: Option<string>, ts: string): (r: string)
    ensures IsLabel(r)
  {
    if Truthy(cfg) then Sanitize(cfg.value)
    else if Truthy(build) then Sanitize(FallbackPrefix + build.value)
    else Sanitize(FallbackPrefix + ts)
  }

  /** `wp-` followed by one to 60 digits is already a valid label. */
  lemma FallbackDigitsIsLabel(d: string)
    requires 1 <= |d| <= MaxLabelLength - |FallbackPrefix|
    requires AllDigits(d)
    ensures IsLabel(FallbackPrefix + d)
  {
    var s := FallbackPrefix + d;
    assert forall i :: 3 <= i < |s| ==> s[i] == d[i - 3];
  }

  /** A set configured name wins over the build number and the timestamp. */
  lemma ConfigWins(cfg: Option<string>, build1: Option<string>, ts1: string, build2: Option<string>, ts2: string)
    requires Truthy(cfg)
    ensures ChooseName(cfg, build1, ts1) == ChooseName(cfg, build2, ts2)
  {
  }

  /** A configured name that is already a valid label is used verbatim. */
  lemma ConfigLabelVerbatim(name: string, build: Option<string>, ts: string)
    requires IsLabel(name)
    ensures ChooseName(Some(name), build, ts) == name
  {
    SanitizeFixedIff(name);
  }

  /** An empty configured name counts as unset. */
  lemma EmptyConfigIsUnset(build: Option<string>, ts: string)
    ensures ChooseName(Some([]), build, ts) == ChooseName(None, build, ts)
  {
  }

  /** Without a configured name, a set build number wins over the timestamp. */
  lemma BuildNumberWins(cfg: Option<string>, build: Option<string>, ts1: string, ts2: string)
    requires !Truthy(cfg) && Truthy(build)
    ensures ChooseName(cfg, build, ts1) == ChooseName(cfg, build, ts2)
  {
  }

  /** An empty build number counts as unset. */
  lemma EmptyBuildIsUnset(cfg: Option<string>, ts: string)
    ensures ChooseName(cfg, Some([]), ts) == ChooseName(cfg, None, ts)
  {
  }

  /** Without a configured name, a numeric build number of up to 60 digits gives `wp-<build>`, whatever the time. */
  lemma BuildNumberName(cfg: Option<string>, build: string, ts: string)
    requires !Truthy(cfg)
    requires 1 <= |build| <= MaxLabelLength - |FallbackPrefix|
    requires AllDigits(build)
    ensures ChooseName(cfg, Some(build), ts) == FallbackPrefix + build
  {
    FallbackDigitsIsLabel(build);
    SanitizeFixedIff(FallbackPrefix + build);
  }

  /** With neither a configured name nor a build number, a `YYYYMMDDHHMMSS` timestamp gives `wp-<timestamp>`. */
  lemma TimestampName(cfg: Option<string>, build: Option<string>, ts: string)
    requires !Truthy(cfg) && !Truthy(build)
    requires |ts| == 14 && AllDigits(ts)
    ensures ChooseName(cfg, build, ts) == FallbackPrefix + ts
    ensures |ChooseName(cfg, build, ts)| == 17
  {
    FallbackDigitsIsLabel(ts);
    SanitizeFixedIff(FallbackPrefix + ts);
  }

  /** Without a configured name, the chosen name always starts with `wp`. */
  lemma FallbackStartsWithWp(cfg: Option<string>, build: Option<string>, ts: string)
    requires !Truthy(cfg)
    ensures |ChooseName(cfg, build, ts)| >= 2 && ChooseName(cfg, build, ts)[..2] == "wp"
  {
    if Truthy(build) {
      SanitizeKeepsWpPrefix(build.value);
    } else {
      SanitizeKeepsWpPrefix(ts);
    }
  }
}
