/** When the page asks the scoring worker for a calculation. */
module Calculation {
  import opened Types
  import opened EnabledBuilds

  /** The message posted to the worker: the upload and the enabled builds. */
  datatype Request<B> = Request(artifacts: seq<Artifact>, builds: map<string, B>)

  /** The effect's guard: no request without an upload, with an empty upload
      or without enabled builds; otherwise the upload and the enabled builds
      are sent. */
  function CalculationRequest<B>(arts: Option<seq<Artifact>>, enabled: map<string, B>): (r: Option<Request<B>>)
    ensures r.None? <==> arts.None? || arts.value == [] || enabled == map[]
    ensures r.Some? ==> r.value.artifacts == arts.value && r.value.builds == enabled
  {
    if arts.None? || |arts.value| == 0 || |enabled| == 0 then None
    else Some(Request(arts.value, enabled))
  }

  /** What the page renders instead of, or as, the result view. */
  datatype Screen = NoUploadedArtifacts | NoEnabledBuilds | ResultView

  /** The early returns of the page: no upload, then no enabled build. */
  function ScreenFor<B>(arts: Option<seq<Artifact>>, enabled: map<string, B>): Screen {
    if arts.None? then NoUploadedArtifacts
    else if |enabled| == 0 then NoEnabledBuilds
    else ResultView
  }

  /** A calculation is requested exactly when the result view is shown for a
      non-empty upload; the two screens that replace the view never request one. */
  lemma RequestOnlyForResultView<B>(arts: Option<seq<Artifact>>, enabled: map<string, B>)
    ensures CalculationRequest(arts, enabled).Some? <==>
      ScreenFor(arts, enabled) == ResultView && arts.value != []
  {
  }

  /** In terms of the stored configuration: a calculation is requested exactly
      when the upload is non-empty and some user or preset build is enabled. */
  lemma RequestFromConfiguration<B>(arts: Option<seq<Artifact>>, builds: map<string, B>,
                                    presets: map<string, B>, config: map<string, BuildConfig>)
    ensures CalculationRequest(arts, EnabledBuilds.EnabledBuilds(builds, presets, config)).Some? <==>
      arts.Some? && arts.value != [] &&
      exists k :: k in builds.Keys + presets.Keys && IsEnabled(config, k)
  {
    EnabledBuildsEmpty(builds, presets, config);
  }
}
