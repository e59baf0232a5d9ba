/**
 * The editor view of web_packages/fluttron_milkdown/frontend/src/main.js: the
 * normalisation of the host's configuration, the feature flags handed to the
 * Crepe engine, the theme classes of the container, the process-wide registry
 * of live editors and the element pair that `createMilkdownEditorView` returns.
 *
 * The Crepe engine is a foreign library: an engine is the record of what it was
 * constructed with, and whether its `create()` and `destroy()` promises resolve
 * or reject is a parameter of the operation that awaits them. Events dispatched
 * on the window are appended to the registry's event log; the clock read for a
 * change event's `updatedAt` is a parameter.
 */
module Editor {
  import opened JsText
  import opened Events

  datatype Option<T> = None | Some(value: T)

  // ---------------------------------------------------------------------------
  // Configuration (lines 12-33, 67-93)

  /**
   * A JavaScript value as the host can pass it. An object is its own enumerable
   * properties (an array is the object of its indices); numbers are taken to be
   * integers, which is all `typeof` and `!== false` can tell apart here.
   */
  datatype JsValue =
    | Undefined
    | Null
    | Bool(b: bool)
    | Number(n: int)
    | Str(s: string)
    | Function
    | Object(props: map<string, JsValue>)

  /** The `typeof` operator. */
  function TypeOf(v: JsValue): string {
    match v
    case Undefined => "undefined"
    case Null => "object"
    case Bool(_) => "boolean"
    case Number(_) => "number"
    case Str(_) => "string"
    case Function => "function"
    case Object(_) => "object"
  }

  /** Reading a property: an object's own property, `undefined` when absent or on other values. */
  function Get(v: JsValue, key: string): JsValue {
    if v.Object? && key in v.props then v.props[key] else Undefined
  }

  /** A property of a record of flags, `undefined` when absent. */
  function Lookup(flags: map<string, JsValue>, key: string): JsValue {
    if key in flags then flags[key] else Undefined
  }

  /** `DEFAULT_FEATURES`: every feature on. */
  const DefaultFeatures: map<string, JsValue> := map[
    "codeMirror" := Bool(true), "listItem" := Bool(true), "linkTooltip" := Bool(true),
    "cursor" := Bool(true), "imageBlock" := Bool(true), "blockEdit" := Bool(true),
    "toolbar" := Bool(true), "placeholder" := Bool(true), "table" := Bool(true),
    "latex" := Bool(true)]

  const DefaultTheme: string := "frame"

  /** The record `normalizeConfig` returns. */
  datatype Options = Options(initialMarkdown: string, theme: string, readonly: bool, features: map<string, JsValue>)

  /** The flags a configuration object sets over the defaults: its `features` when that is a non-null object. */
  function Overrides(config: JsValue): map<string, JsValue> {
    var f := Get(config, "features");
    if TypeOf(f) == "object" && f != Null then f.props else map[]
  }

  /** `normalizeConfig(config)`. */
  function NormalizeConfig(config: JsValue): Options
  {
    if TypeOf(config) == "string" then
      Options(config.s, DefaultTheme, false, DefaultFeatures)
    else if config == Null || config == Undefined || TypeOf(config) != "object" then
      Options("", DefaultTheme, false, DefaultFeatures)
    else
      var markdown := Get(config, "initialMarkdown");
      var theme := Get(config, "theme");
      Options(
        if TypeOf(markdown) == "string" then markdown.s else "",
        if TypeOf(theme) == "string" then theme.s else DefaultTheme,
        Get(config, "readonly") == Bool(true),
        DefaultFeatures + Overrides(config))
  }

  /**
   * What normalisation makes of each shape of configuration: a string is the
   * initial markdown; `null`, `undefined` and every other non-object give the
   * defaults; from an object a field is taken only when it has the right type,
   * `readonly` only when it is `true`, any string theme is kept, and the
   * features are the defaults overridden key by key by its `features` object.
   */
  lemma NormalizeConfigCases(config: JsValue)
    ensures var o := NormalizeConfig(config);
      && (config.Str? ==> o == Options(config.s, DefaultTheme, false, DefaultFeatures))
      && (!config.Str? && !config.Object? ==> o == Options("", DefaultTheme, false, DefaultFeatures))
      && (o.readonly <==> config.Object? && Get(config, "readonly") == Bool(true))
      && (config.Object? ==> (Get(config, "initialMarkdown").Str? <==> Get(config, "initialMarkdown") == Str(o.initialMarkdown)))
      && (o.initialMarkdown != "" ==> config == Str(o.initialMarkdown) || Get(config, "initialMarkdown") == Str(o.initialMarkdown))
      && (o.theme != DefaultTheme ==> config.Object? && Get(config, "theme") == Str(o.theme))
      && (config.Object? && Get(config, "theme").Str? ==> o.theme == Get(config, "theme").s)
      && (o.features.Keys == DefaultFeatures.Keys + Overrides(config).Keys)
      && (forall k :: k in o.features ==>
        o.features[k] == if k in Overrides(config) then Overrides(config)[k] else DefaultFeatures[k])
  {
  }

  /** A normalised record written back as a configuration object. */
  function OptionsObject(o: Options): JsValue {
    Object(map[
      "initialMarkdown" := Str(o.initialMarkdown), "theme" := Str(o.theme),
      "readonly" := Bool(o.readonly), "features" := Object(o.features)])
  }

  /**
   * Normalisation is idempotent: passing a normalised record back as the
   * configuration yields the same record, so every default is already in place.
   */
  lemma NormalizeIsIdempotent(config: JsValue)
    ensures var o := NormalizeConfig(config); NormalizeConfig(OptionsObject(o)) == o
  {
    var o := NormalizeConfig(config);
    NormalizeConfigCases(config);
    var again := NormalizeConfig(OptionsObject(o));
    assert Overrides(OptionsObject(o)) == o.features;
    assert again.features == o.features;
  }

  // ---------------------------------------------------------------------------
  // Feature flags for the engine (lines 95-106)

  /** The engine's `Crepe.Feature` keys. */
  datatype CrepeFeature =
    | CodeMirror | ListItem | LinkTooltip | Cursor | ImageBlock
    | BlockEdit | Toolbar | Placeholder | Table | Latex

  /** The configuration flag that switches each engine feature. */
  function FlagName(f: CrepeFeature): string {
    match f
    case CodeMirror => "codeMirror"
    case ListItem => "listItem"
    case LinkTooltip => "linkTooltip"
    case Cursor => "cursor"
    case ImageBlock => "imageBlock"
    case BlockEdit => "blockEdit"
    case Toolbar => "toolbar"
    case Placeholder => "placeholder"
    case Table => "table"
    case Latex => "latex"
  }

  /** `mapToCrepeFeatures(features)`: the engine's feature switches. */
  function MapToCrepeFeatures(features: map<string, JsValue>): map<CrepeFeature, bool> {
    map[
      CodeMirror := Lookup(features, "codeMirror") != Bool(false),
      ListItem := Lookup(features, "listItem") != Bool(false),
      LinkTooltip := Lookup(features, "linkTooltip") != Bool(false),
      Cursor := Lookup(features, "cursor") != Bool(false),
      ImageBlock := Lookup(features, "imageBlock") != Bool(false),
      BlockEdit := Lookup(features, "blockEdit") != Bool(false),
      Toolbar := Lookup(features, "toolbar") != Bool(false),
      Placeholder := Lookup(features, "placeholder") != Bool(false),
      Table := Lookup(features, "table") != Bool(false),
      Latex := Lookup(features, "latex") != Bool(false)]
  }

  /** Every feature gets a switch, and it is off exactly when its flag is the value `false`. */
  lemma CrepeFeatureFollowsFlag(features: map<string, JsValue>, f: CrepeFeature)
    ensures f in MapToCrepeFeatures(features)
    ensures !MapToCrepeFeatures(features)[f] <==> Lookup(features, FlagName(f)) == Bool(false)
  {
    match f
    case CodeMirror =>
    case ListItem =>
    case LinkTooltip =>
    case Cursor =>
    case ImageBlock =>
    case BlockEdit =>
    case Toolbar =>
    case Placeholder =>
    case Table =>
    case Latex =>
  }

  /** Every engine feature's flag is one of the defaults, and on by default. */
  lemma FlagHasDefault(f: CrepeFeature)
    ensures FlagName(f) in DefaultFeatures && DefaultFeatures[FlagName(f)] == Bool(true)
  {
    match f
    case CodeMirror =>
    case ListItem =>
    case LinkTooltip =>
    case Cursor =>
    case ImageBlock =>
    case BlockEdit =>
    case Toolbar =>
    case Placeholder =>
    case Table =>
    case Latex =>
  }

  /**
   * After normalisation an engine feature is off exactly when the configuration
   * object's `features` sets its flag to `false`; a missing flag, `undefined`,
   * `0` or any other value leaves it on, and so does every non-object configuration.
   */
  lemma FeatureOffOnlyWhenFalse(config: JsValue, f: CrepeFeature)
    ensures f in MapToCrepeFeatures(NormalizeConfig(config).features)
    ensures !MapToCrepeFeatures(NormalizeConfig(config).features)[f] <==>
      FlagName(f) in Overrides(config) && Overrides(config)[FlagName(f)] == Bool(false)
  {
    var o := NormalizeConfig(config);
    NormalizeConfigCases(config);
    CrepeFeatureFollowsFlag(o.features, f);
    FlagHasDefault(f);
  }

  // ---------------------------------------------------------------------------
  // Elements and theme classes (lines 108-120)

  /** A `div` of the page, with the parts of it the view touches. */
  class Element {
    var id: string
    var classes: set<string>
    var styleText: string
    var children: seq<Element>
    var innerHtml: string
    /** The view ids whose focus and blur forwarders listen on this element, in the order they were added. */
    var listeners: seq<int>

    /** `document.createElement('div')`. */
    constructor ()
      ensures id == "" && classes == {} && styleText == "" && children == []
      ensures innerHtml == "" && listeners == []
    {
      id, classes, styleText, children := "", {}, "", [];
      innerHtml, listeners := "", [];
    }
  }

  /** The six theme classes `clearThemeClasses` removes, in its order. */
  const ThemeClassList: seq<string> := [
    "milkdown-theme-frame", "milkdown-theme-frame-dark",
    "milkdown-theme-classic", "milkdown-theme-classic-dark",
    "milkdown-theme-nord", "milkdown-theme-nord-dark"]

  /** The class `applyTheme` adds, whatever theme was requested. */
  const AppliedThemeClass: string := "milkdown-theme-frame"

  function ThemeClasses(): set<string> {
    set i | 0 <= i < |ThemeClassList| :: ThemeClassList[i]
  }

  /** `clearThemeClasses(container)`: every theme class is removed, every other class stays. */
  method ClearThemeClasses(container: Element)
    modifies container`classes
    ensures container.classes == old(container.classes) - ThemeClasses()
  {
    for i := 0 to |ThemeClassList|
      invariant container.classes == old(container.classes) - set j | 0 <= j < i :: ThemeClassList[j]
    {
      container.classes := container.classes - {ThemeClassList[i]};
    }
  }

  /**
   * `applyTheme(container, themeName)`: afterwards the frame class is the only
   * theme class, whatever `themeName` is, and every other class is as it was.
   */
  method ApplyTheme(container: Element, themeName: string)
    modifies container`classes
    ensures container.classes * ThemeClasses() == {AppliedThemeClass}
    ensures container.classes - ThemeClasses() == old(container.classes) - ThemeClasses()
  {
    ClearThemeClasses(container);
    container.classes := container.classes + {AppliedThemeClass};
    assert AppliedThemeClass == ThemeClassList[0];
  }

  /** The two postconditions of `ApplyTheme` fix the class set: it is the old one with the theme classes replaced. */
  lemma ThemedClassesDetermined(before: set<string>, after: set<string>)
    requires after * ThemeClasses() == {AppliedThemeClass}
    requires after - ThemeClasses() == before - ThemeClasses()
    ensures after == (before - ThemeClasses()) + {AppliedThemeClass}
  {
    assert after == (after - ThemeClasses()) + (after * ThemeClasses());
  }

  /** The first element of `es` that carries class `cls`: `querySelector` over the children. */
  function FirstWithClass(es: seq<Element>, cls: string): (r: Option<Element>)
    reads set e | e in es
    ensures r.Some? ==> r.value in es && cls in r.value.classes
    ensures r.Some? ==> exists i :: 0 <= i < |es| && es[i] == r.value && forall j :: 0 <= j < i ==> cls !in es[j].classes
    ensures r.None? ==> forall e :: e in es ==> cls !in e.classes
  {
    if es == [] then None
    else if cls in es[0].classes then Some(es[0])
    else
      var r := FirstWithClass(es[1..], cls);
      assert forall e :: e in es[1..] ==> e in es;
      if r.Some? then
        var i :| 0 <= i < |es[1..]| && es[1..][i] == r.value && forall j :: 0 <= j < i ==> cls !in es[1..][j].classes;
        assert es[i + 1] == r.value;
        r
      else r
  }

  /** `container.querySelector('.fluttron-milkdown__editor-mount')`, over the container's children. */
  function MountOf(container: Element): Option<Element>
    reads container, set e | e in container.children
  {
    FirstWithClass(container.children, MountClass)
  }

  // ---------------------------------------------------------------------------
  // The registry of live editors (lines 35, 122-168)

  /** A settled promise: resolved, or rejected with an error's message. */
  datatype Outcome = Resolved | Rejected(message: string)

  /** What a Crepe engine was built with: the view its change listener reports for, its root and settings. */
  datatype Engine = Engine(
    viewId: int, root: Option<Element>, defaultValue: string,
    features: map<CrepeFeature, bool>, readonly: bool)

  /** An entry of `editorInstances`. */
  datatype Instance = Instance(crepe: Engine, container: Element, theme: string)

  /** The engine calls made so far, labelled by the view they were made for. */
  datatype EngineCall = Construct(viewId: int) | Destroy(viewId: int)

  const MountClass: string := "fluttron-milkdown__editor-mount"

  /** What a browser reports when `editorMount` is `null` at `addEventListener` (line 159). */
  const NullMountMessage: string := "Cannot read properties of null (reading 'addEventListener')"

  /** The last engine call made for `viewId`. */
  function LastCall(calls: seq<EngineCall>, viewId: int): (r: Option<EngineCall>)
    ensures r.Some? ==> r.value in calls && r.value.viewId == viewId
    ensures r.None? ==> forall c :: c in calls ==> c.viewId != viewId
  {
    if calls == [] then None
    else if calls[|calls| - 1].viewId == viewId then Some(calls[|calls| - 1])
    else
      var r := LastCall(calls[..|calls| - 1], viewId);
      assert forall c :: c in calls ==> c in calls[..|calls| - 1] || c == calls[|calls| - 1];
      r
  }

  lemma LastCallAppend(calls: seq<EngineCall>, c: EngineCall, viewId: int)
    ensures LastCall(calls + [c], viewId) == if c.viewId == viewId then Some(c) else LastCall(calls, viewId)
  {
    assert (calls + [c])[..|calls|] == calls;
  }

  /**
   * The registry agrees with the engine calls: a registered engine reports for
   * its own id and was the last one constructed for it, with no destroy since.
   */
  predicate Consistent(instances: map<int, Instance>, calls: seq<EngineCall>) {
    forall k :: k in instances ==> instances[k].crepe.viewId == k && LastCall(calls, k) == Some(Construct(k))
  }

  /** Consistency survives destroying an entry and logging the destroy call. */
  lemma ConsistentAfterDestroy(instances: map<int, Instance>, calls: seq<EngineCall>, viewId: int)
    requires Consistent(instances, calls)
    ensures Consistent(instances - {viewId}, calls + (if viewId in instances then [Destroy(viewId)] else []))
  {
    var calls' := calls + (if viewId in instances then [Destroy(viewId)] else []);
    forall k | k in instances - {viewId}
      ensures LastCall(calls', k) == Some(Construct(k))
    {
      if viewId in instances {
        LastCallAppend(calls, Destroy(viewId), k);
      } else {
        assert calls' == calls;
      }
    }
  }

  /** Consistency survives constructing an engine for an unregistered id, with or without registering it. */
  lemma ConsistentAfterConstruct(instances: map<int, Instance>, calls: seq<EngineCall>, viewId: int)
    requires Consistent(instances, calls) && viewId !in instances
    ensures Consistent(instances, calls + [Construct(viewId)])
    ensures LastCall(calls + [Construct(viewId)], viewId) == Some(Construct(viewId))
  {
    forall k | k in instances
      ensures LastCall(calls + [Construct(viewId)], k) == Some(Construct(k))
    {
      LastCallAppend(calls, Construct(viewId), k);
    }
    LastCallAppend(calls, Construct(viewId), viewId);
  }

  /** Registering an engine for the id whose engine was constructed last keeps the registry consistent. */
  lemma ConsistentAfterRegister(instances: map<int, Instance>, calls: seq<EngineCall>, viewId: int, entry: Instance)
    requires Consistent(instances, calls) && LastCall(calls, viewId) == Some(Construct(viewId))
    requires entry.crepe.viewId == viewId
    ensures Consistent(instances[viewId := entry], calls)
  {
  }

  /** An id whose last engine call was a destroy is not registered. */
  lemma DestroyedIsUnregistered(instances: map<int, Instance>, calls: seq<EngineCall>, viewId: int)
    requires Consistent(instances, calls) && LastCall(calls, viewId) == Some(Destroy(viewId))
    ensures viewId !in instances
  {
  }

  /** The process-wide `editorInstances` map together with the engine calls and the window's events. */
  class EditorRegistry {
    var instances: map<int, Instance>
    var engineCalls: seq<EngineCall>
    var events: seq<Event>

    constructor ()
      ensures instances == map[] && engineCalls == [] && events == []
      ensures Consistent(instances, engineCalls)
    {
      instances, engineCalls, events := map[], [], [];
    }

    /**
     * `destroyEditor(viewId)`: an unknown id is left alone; a known one has its
     * engine destroyed and its entry removed, whether `destroy()` resolves or
     * rejects (`destroyOutcome`), so a second call finds nothing to do.
     */
    method DestroyEditor(viewId: int, destroyOutcome: Outcome)
      requires Consistent(instances, engineCalls)
      modifies this`instances, this`engineCalls
      ensures instances == old(instances) - {viewId}
      ensures engineCalls == old(engineCalls) + if viewId in old(instances) then [Destroy(viewId)] else []
      ensures Consistent(instances, engineCalls)
    {
      ConsistentAfterDestroy(instances, engineCalls, viewId);
      if viewId !in instances {
        return;
      }
      // `await instance.crepe.destroy()`: a rejection is caught and dropped
      engineCalls := engineCalls + [Destroy(viewId)];
      instances := map k | k in instances && k != viewId :: instances[k];
    }

    /**
     * `initializeCrepeEditor(viewId, container, options)`. The old editor for the
     * id is destroyed before the new engine is constructed; the new one is
     * registered, themed and announced (one ready event, then one change event
     * with the initial markdown) only when `create()` resolves and the mount was
     * found. Otherwise the promise rejects and the id stays unregistered.
     */
    method InitializeCrepeEditor(viewId: int, container: Element, options: Options,
                                 destroyOutcome: Outcome, createOutcome: Outcome, now: string)
      returns (result: Outcome)
      requires Consistent(instances, engineCalls)
      modifies this`instances, this`engineCalls, this`events, container`classes, container.children`listeners
      ensures engineCalls == old(engineCalls) + (if viewId in old(instances) then [Destroy(viewId)] else []) + [Construct(viewId)]
      ensures result == Resolved <==> createOutcome == Resolved && old(MountOf(container)).Some?
      ensures createOutcome.Rejected? ==> result == createOutcome
      ensures createOutcome == Resolved && old(MountOf(container)).None? ==> result == Rejected(NullMountMessage)
      ensures result == Resolved ==> var mount := old(MountOf(container)).value;
        && instances == old(instances)[viewId := Instance(
             Engine(viewId, Some(mount), options.initialMarkdown, MapToCrepeFeatures(options.features), options.readonly),
             container, options.theme)]
        && mount.listeners == old(mount.listeners) + [viewId]
        && container.classes * ThemeClasses() == {AppliedThemeClass}
        && container.classes - ThemeClasses() == old(container.classes) - ThemeClasses()
        && events == old(events) + [EmitEditorReady(viewId), EmitEditorChange(viewId, options.initialMarkdown, now)]
        && forall e :: e in container.children && e != mount ==> e.listeners == old(e.listeners)
      ensures result.Rejected? ==>
        && instances == old(instances) - {viewId}
        && container.classes == old(container.classes)
        && events == old(events)
        && forall e :: e in container.children ==> e.listeners == old(e.listeners)
      ensures Consistent(instances, engineCalls)
    {
      DestroyEditor(viewId, destroyOutcome);
      var editorMount := MountOf(container);
      var crepeFeatures := MapToCrepeFeatures(options.features);
      var crepe := Engine(viewId, editorMount, options.initialMarkdown, crepeFeatures, false);
      ConsistentAfterConstruct(instances, engineCalls, viewId);
      engineCalls := engineCalls + [Construct(viewId)];
      if createOutcome.Rejected? {
        return createOutcome;
      }
      if options.readonly {
        crepe := crepe.(readonly := true);
      }
      if editorMount.None? {
        return Rejected(NullMountMessage);
      }
      Register(viewId, container, editorMount.value, crepe, options.theme, options.initialMarkdown, now);
      return Resolved;
    }

    /**
     * Lines 159-167, once the engine is up: the focus and blur forwarders on the
     * mount, the registration, the theme, and the ready and change events.
     */
    method Register(viewId: int, container: Element, mount: Element, crepe: Engine,
                    theme: string, initialMarkdown: string, now: string)
      requires Consistent(instances, engineCalls) && LastCall(engineCalls, viewId) == Some(Construct(viewId))
      requires crepe.viewId == viewId
      modifies this`instances, this`events, container`classes, mount`listeners
      ensures instances == old(instances)[viewId := Instance(crepe, container, theme)]
      ensures mount.listeners == old(mount.listeners) + [viewId]
      ensures container.classes * ThemeClasses() == {AppliedThemeClass}
      ensures container.classes - ThemeClasses() == old(container.classes) - ThemeClasses()
      ensures events == old(events) + [EmitEditorReady(viewId), EmitEditorChange(viewId, initialMarkdown, now)]
      ensures Consistent(instances, engineCalls)
    {
      mount.listeners := mount.listeners + [viewId];
      ConsistentAfterRegister(instances, engineCalls, viewId, Instance(crepe, container, theme));
      instances := instances[viewId := Instance(crepe, container, theme)];
      ApplyTheme(container, theme);
      events := events + [EmitEditorReady(viewId), EmitEditorChange(viewId, initialMarkdown, now)];
    }

    /**
     * `createMilkdownEditorView(viewId, config)`: a fresh container with the
     * view's id and one mount child, whatever the configuration. The
     * initialisation runs to its end here; when it rejects, the error is
     * rendered inside the mount instead of being thrown.
     */
    method CreateMilkdownEditorView(viewId: int, config: JsValue,
                                    destroyOutcome: Outcome, createOutcome: Outcome, now: string)
      returns (container: Element)
      requires Consistent(instances, engineCalls)
      modifies this`instances, this`engineCalls, this`events
      ensures fresh(container) && container.id == ContainerId(viewId) && container.styleText == ContainerStyle
      ensures |container.children| == 1 && fresh(container.children[0])
      ensures engineCalls == old(engineCalls) + (if viewId in old(instances) then [Destroy(viewId)] else []) + [Construct(viewId)]
      ensures var mount := container.children[0];
        && mount.classes == {MountClass} && mount.styleText == MountStyle && mount.children == []
        && mount.listeners == (if createOutcome == Resolved then [viewId] else [])
        && mount.innerHtml == (if createOutcome.Rejected? then ErrorHtml(createOutcome.message) else "")
      ensures createOutcome == Resolved ==>
        var o := NormalizeConfig(config);
        && container.classes == {ContainerClass, AppliedThemeClass}
        && instances == old(instances)[viewId := Instance(
             Engine(viewId, Some(container.children[0]), o.initialMarkdown, MapToCrepeFeatures(o.features), o.readonly),
             container, o.theme)]
        && events == old(events) + [EmitEditorReady(viewId), EmitEditorChange(viewId, o.initialMarkdown, now)]
      ensures createOutcome.Rejected? ==>
        && container.classes == {ContainerClass}
        && instances == old(instances) - {viewId}
        && events == old(events)
      ensures Consistent(instances, engineCalls)
    {
      var options := NormalizeConfig(config);
      var editorMount;
      container, editorMount := NewView(viewId);
      StartView(viewId, container, editorMount, options, destroyOutcome, createOutcome, now);
      if createOutcome == Resolved {
        ContainerClassIsNoTheme();
        ThemedClassesDetermined({ContainerClass}, container.classes);
      }
    }

    /**
     * Lines 196-203: the initialisation of a new view, whose rejection is
     * caught and rendered inside the mount.
     */
    method StartView(viewId: int, container: Element, mount: Element, options: Options,
                     destroyOutcome: Outcome, createOutcome: Outcome, now: string)
      requires Consistent(instances, engineCalls)
      requires container.children == [mount] && MountOf(container) == Some(mount)
      requires mount.listeners == [] && mount.innerHtml == ""
      modifies this`instances, this`engineCalls, this`events, container`classes, mount`listeners, mount`innerHtml
      ensures engineCalls == old(engineCalls) + (if viewId in old(instances) then [Destroy(viewId)] else []) + [Construct(viewId)]
      ensures mount.listeners == if createOutcome == Resolved then [viewId] else []
      ensures mount.innerHtml == if createOutcome.Rejected? then ErrorHtml(createOutcome.message) else ""
      ensures createOutcome == Resolved ==>
        && container.classes * ThemeClasses() == {AppliedThemeClass}
        && container.classes - ThemeClasses() == old(container.classes) - ThemeClasses()
        && instances == old(instances)[viewId := Instance(
             Engine(viewId, Some(mount), options.initialMarkdown, MapToCrepeFeatures(options.features), options.readonly),
             container, options.theme)]
        && events == old(events) + [EmitEditorReady(viewId), EmitEditorChange(viewId, options.initialMarkdown, now)]
      ensures createOutcome.Rejected? ==>
        && container.classes == old(container.classes)
        && instances == old(instances) - {viewId}
        && events == old(events)
      ensures Consistent(instances, engineCalls)
    {
      var result := InitializeCrepeEditor(viewId, container, options, destroyOutcome, createOutcome, now);
      if result.Rejected? {
        // the `.catch` handler; the console report is not modelled
        mount.innerHtml := ErrorHtml(result.message);
      }
    }
  }

  const ContainerClass: string := "fluttron-milkdown"

  /** Lines 174-194: the container, with the view's id, its class and style, holding the mount. */
  method NewView(viewId: int) returns (container: Element, mount: Element)
    ensures fresh(container) && fresh(mount) && container != mount
    ensures container.id == ContainerId(viewId) && container.classes == {ContainerClass}
    ensures container.styleText == ContainerStyle && container.children == [mount]
    ensures mount.classes == {MountClass} && mount.styleText == MountStyle && mount.children == []
    ensures mount.innerHtml == "" && mount.listeners == []
    ensures MountOf(container) == Some(mount)
  {
    container := new Element();
    container.id := ContainerId(viewId);
    container.classes := {ContainerClass};
    container.styleText := ContainerStyle;
    mount := new Element();
    mount.classes := {MountClass};
    mount.styleText := MountStyle;
    container.children := container.children + [mount];
    assert MountOf(container) == Some(mount);
  }

  /** The container's own class is not a theme class, so theming leaves it in place. */
  lemma ContainerClassIsNoTheme()
    ensures ContainerClass !in ThemeClasses()
  {
    assert |ContainerClass| == 17;
    forall i | 0 <= i < |ThemeClassList|
      ensures |ThemeClassList[i]| > 17
    {
    }
  }

  /** The container's `id`. */
  function ContainerId(viewId: int): string {
    "fluttron-milkdown-" + IntToString(viewId)
  }

  /** Two views never share a container id. */
  lemma ContainerIdsDistinct(a: int, b: int)
    requires a != b
    ensures ContainerId(a) != ContainerId(b)
  {
    IntToStringInjective(a, b);
    var p := "fluttron-milkdown-";
    assert ContainerId(a)[|p|..] == IntToString(a);
    assert ContainerId(b)[|p|..] == IntToString(b);
  }

  /** Lines 178-184: the container's inline style. */
  const ContainerStyle: string :=
    "\n    width: 100%;\n    height: 100%;\n    box-sizing: border-box;\n    display: flex;\n    flex-direction: column;\n  "

  /** Lines 188-192: the mount's inline style. */
  const MountStyle: string := "\n    flex: 1;\n    min-height: 0;\n    overflow: auto;\n  "

  const ErrorOpen: string :=
    "\n      <div style=\"padding: 16px; color: #dc2626; background: #fef2f2; border-radius: 8px;\">\n        Failed to initialize editor: "

  const ErrorClose: string := "\n      </div>\n    "

  /** Lines 198-202: the markup that replaces the mount's content when initialisation fails. */
  function ErrorHtml(message: string): string {
    ErrorOpen + message + ErrorClose
  }

  /** The failure markup shows the error's message. */
  lemma ErrorHtmlShowsMessage(message: string)
    ensures Includes(ErrorHtml(message), message)
  {
    var h := ErrorHtml(message);
    assert h[|ErrorOpen|..|ErrorOpen| + |message|] == message;
    assert At(h, message, |ErrorOpen|);
  }
}
