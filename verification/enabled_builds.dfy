/** The map of builds the scorer sees: the user's builds and the preset
    builds whose configuration entry exists and is enabled. */
module EnabledBuilds {
  import opened Types

  /** `config[key] && config[key].enabled`: a missing entry counts as disabled. */
  predicate IsEnabled(config: map<string, BuildConfig>, key: string) {
    key in config && config[key].enabled
  }

  /** The entries of `m` whose key is enabled. */
  function EnabledOf<B>(m: map<string, B>, config: map<string, BuildConfig>): map<string, B> {
    map k | k in m && IsEnabled(config, k) :: m[k]
  }

  /** Reference definition of the merge: the enabled user builds, overwritten
      by the enabled preset builds (the second loop writes last). */
  function EnabledBuilds<B>(builds: map<string, B>, presets: map<string, B>,
                            config: map<string, BuildConfig>): map<string, B> {
    EnabledOf(builds, config) + EnabledOf(presets, config)
  }

  /** A key is enabled iff some source map holds it and its configuration is
      enabled; on a key both maps hold, the preset's build is the one kept. */
  lemma EnabledBuildsMembership<B>(builds: map<string, B>, presets: map<string, B>,
                                   config: map<string, BuildConfig>)
    ensures forall k :: k in EnabledBuilds(builds, presets, config) <==>
      (k in builds || k in presets) && IsEnabled(config, k)
    ensures forall k :: k in EnabledBuilds(builds, presets, config) && k in presets ==>
      EnabledBuilds(builds, presets, config)[k] == presets[k]
    ensures forall k :: k in EnabledBuilds(builds, presets, config) && k !in presets ==>
      EnabledBuilds(builds, presets, config)[k] == builds[k]
  {
  }

  /** Changing or removing a build whose configuration is disabled leaves the
      merged map unchanged: disabled builds are invisible downstream. */
  lemma {:induction false} DisabledBuildInvisible<B>(builds: map<string, B>, presets: map<string, B>,
                                  config: map<string, BuildConfig>, key: string, b: B)
    requires !IsEnabled(config, key)
    ensures EnabledBuilds(builds[key := b], presets, config) == EnabledBuilds(builds, presets, config)
    ensures EnabledBuilds(builds, presets[key := b], config) == EnabledBuilds(builds, presets, config)
    ensures EnabledBuilds(builds - {key}, presets - {key}, config) == EnabledBuilds(builds, presets, config)
  {
    assert EnabledOf(builds[key := b], config) == EnabledOf(builds, config);
    assert EnabledOf(presets[key := b], config) == EnabledOf(presets, config);
    assert EnabledOf(builds - {key}, config) == EnabledOf(builds, config);
    assert EnabledOf(presets - {key}, config) == EnabledOf(presets, config);
  }

  /** The merge has no enabled build iff no key of either map is enabled. */
  lemma EnabledBuildsEmpty<B>(builds: map<string, B>, presets: map<string, B>,
                              config: map<string, BuildConfig>)
    ensures |EnabledBuilds(builds, presets, config)| == 0 <==>
      forall k :: k in builds.Keys + presets.Keys ==> !IsEnabled(config, k)
  {
    var e := EnabledBuilds(builds, presets, config);
    if k :| k in builds.Keys + presets.Keys && IsEnabled(config, k) {
      assert k in e;
    }
  }

  /** The two loops that fill `enabledBuilds`: first the user's builds, then
      the presets, each copied when its configuration is enabled. */
  method MergeEnabledBuilds<B>(builds: map<string, B>, presets: map<string, B>,
                               config: map<string, BuildConfig>)
    returns (enabled: map<string, B>)
    ensures enabled == EnabledBuilds(builds, presets, config)
  {
    enabled := map[];
    var keys := builds.Keys;
    while keys != {}
      invariant keys <= builds.Keys
      invariant forall k :: k in enabled <==> k in builds && k !in keys && IsEnabled(config, k)
      invariant forall k :: k in enabled ==> enabled[k] == builds[k]
      decreases keys
    {
      var key :| key in keys;
      if key in config && config[key].enabled {
        enabled := enabled[key := builds[key]];
      }
      keys := keys - {key};
    }
    assert enabled == EnabledOf(builds, config);
    ghost var fromBuilds := enabled;
    keys := presets.Keys;
    while keys != {}
      invariant keys <= presets.Keys
      invariant forall k :: k in enabled <==>
        k in fromBuilds || (k in presets && k !in keys && IsEnabled(config, k))
      invariant forall k :: k in enabled ==>
        enabled[k] == if k in presets && k !in keys && IsEnabled(config, k) then presets[k] else fromBuilds[k]
      decreases keys
    {
      var key :| key in keys;
      if key in config && config[key].enabled {
        enabled := enabled[key := presets[key]];
      }
      keys := keys - {key};
    }
  }
}
