/**
  What BinaryPublisher decides, as functions of the host and of the registry
  (the published path of each item the package holds under a name): which
  structure group the publisher targets, how a binary is placed, what one
  call of PublishMultimediaComponent does to the registry and the publish log,
  what the structured overload does with a component, and how a rich-text
  element is rewritten. The methods of BinaryPublishing are proved against these.
*/
module Publishing {
  import opened Wrappers
  import opened Host
  import FileNames

  const EclMimeType := "application/externalcontentlibrary"
  const TargetParameterName := "sg_PublishBinariesTargetStructureGroup"
  const RegistryPrefix := "PublishMultimedia_"

  /** Why a call fails: the exceptions the host throws, which the publisher lets propagate. */
  datatype Fault =
    | InvalidUri(uri: string)            // new TcmUri(uri)
    | NotAComponent(uri: string)         // (Component)engine.GetObject(uri)
    | NoBinaryContent(componentId: string)  // mmComp.BinaryContent.Filename
    | NotAStructureGroup(uri: string)    // (StructureGroup)engine.GetObject(target)
    | NoPublishedPath(uri: string)       // item.Properties[PublishedPath]

  // ---------------------------------------------------------------------------
  // Construction: the target structure group

  /** The raw string the package registry is keyed by; it is not normalised. */
  function RegistryKey(uri: string): (key: string)
    ensures |key| == |RegistryPrefix| + |uri|
    ensures key[..|RegistryPrefix|] == RegistryPrefix && key[|RegistryPrefix|..] == uri
  {
    RegistryPrefix + uri
  }

  /** Two URI strings share a registry entry only when they are the same string. */
  lemma RegistryKeyInjective(uri1: string, uri2: string)
    ensures RegistryKey(uri1) == RegistryKey(uri2) <==> uri1 == uri2
  {
    if RegistryKey(uri1) == RegistryKey(uri2) {
      assert uri1 == RegistryKey(uri1)[|RegistryPrefix|..];
      assert uri2 == RegistryKey(uri2)[|RegistryPrefix|..];
    }
  }

  /** The configured target: the constructor's argument when given, else the package parameter. */
  function TargetParameter(argument: Option<string>, packageValue: Option<string>): (param: Option<string>)
    ensures argument.Some? ==> param == argument
    ensures argument.None? ==> param == packageValue
  {
    if argument.None? then packageValue else argument
  }

  /** The target structure group a new publisher ends up with: the localised
      configured URI when it is a valid TCM URI; none when nothing is configured
      or when it is invalid (logged, and the constructor returns early). */
  function ResolveTarget(engine: Engine, argument: Option<string>, packageValue: Option<string>): (target: Option<string>)
    ensures var param := TargetParameter(argument, packageValue);
      target.Some? <==> param.Some? && param.value in engine.validUris
    ensures target.Some? ==> target.value == engine.localUri(TargetParameter(argument, packageValue).value)
  {
    match TargetParameter(argument, packageValue)
    case None => None
    case Some(param) => if param in engine.validUris then Some(engine.localUri(param)) else None
  }

  /** An explicit argument wins over the package parameter, whatever that holds. */
  lemma ExplicitTargetWins(engine: Engine, argument: string, packageValue1: Option<string>, packageValue2: Option<string>)
    ensures ResolveTarget(engine, Some(argument), packageValue1) == ResolveTarget(engine, Some(argument), packageValue2)
  {
  }

  // ---------------------------------------------------------------------------
  // PublishItem: placement of one binary

  /** The component a URI resolves to, when it resolves to one. */
  function ComponentAt(engine: Engine, uri: string): Option<Component> {
    if uri in engine.objects && engine.objects[uri].ComponentObject? then Some(engine.objects[uri].component) else None
  }

  /** The publication PublishItem asks the rendered item for: host-default
      placement without a file name or variant when there is no target,
      otherwise the constructed file name in the target structure group with
      the current template as variant. */
  function Placement(engine: Engine, target: Option<string>, uri: string): (r: Result<PublishCall, Fault>)
    ensures r.Success? ==> ComponentAt(engine, uri).Some? && (r.value.DefaultPlacement? || r.value.ExplicitPlacement?)
    ensures r.Success? ==> r.value.componentId == ComponentAt(engine, uri).value.id
    ensures r.Success? ==> (r.value.DefaultPlacement? <==> target.None?)
    ensures r.Success? && target.Some? ==>
      var c := ComponentAt(engine, uri).value;
      && c.binaryContent.Some?
      && r.value == ExplicitPlacement(
           FileNames.ConstructFileName(c.binaryContent.value.filename, c.id, engine.templateId),
           target.value, engine.templateId, c.id, c.binaryContent.value.mimeType)
    ensures r.Failure? <==>
      || ComponentAt(engine, uri).None?
      || (target.Some? && ComponentAt(engine, uri).value.binaryContent.None?)
      || (target.Some? && !(target.value in engine.objects && engine.objects[target.value].StructureGroupObject?))
  {
    match ComponentAt(engine, uri)
    case None => Failure(NotAComponent(uri))
    case Some(c) =>
      if target.None? then Success(DefaultPlacement(c.id))
      else if c.binaryContent.None? then Failure(NoBinaryContent(c.id))
      else if !(target.value in engine.objects && engine.objects[target.value].StructureGroupObject?) then
        Failure(NotAStructureGroup(target.value))
      else
        var content := c.binaryContent.value;
        var fileName := FileNames.ConstructFileName(content.filename, c.id, engine.templateId);
        Success(ExplicitPlacement(fileName, target.value, engine.templateId, c.id, content.mimeType))
  }

  /** A configuration whose target is missing or not a valid TCM URI publishes
      every binary it manages to publish with default placement. */
  lemma InvalidTargetPublishesByDefault(engine: Engine, argument: Option<string>, packageValue: Option<string>, uri: string)
    requires var param := TargetParameter(argument, packageValue); param.None? || param.value !in engine.validUris
    ensures var r := Placement(engine, ResolveTarget(engine, argument, packageValue), uri);
      r.Success? ==> r.value == DefaultPlacement(ComponentAt(engine, uri).value.id)
  {
  }

  // ---------------------------------------------------------------------------
  // PublishMultimediaComponent(string): the per-pass deduplication

  /** r1 keeps every entry of r0 as it was. */
  predicate Extends(r0: map<string, Option<string>>, r1: map<string, Option<string>>) {
    forall k :: k in r0 ==> k in r1 && r1[k] == r0[k]
  }

  /** GetReferencePath: the published path stored on the registered item. */
  function ReferencePath(entry: Option<string>, uri: string): (r: Result<string, Fault>)
    ensures r.Success? <==> entry.Some?
    ensures r.Success? ==> r.value == entry.value
  {
    match entry
    case Some(path) => Success(path)
    case None => Failure(NoPublishedPath(uri))
  }

  /** One call: the registry and the publications after it, and its result. */
  datatype Dispatched = Dispatched(registry: map<string, Option<string>>, published: seq<PublishCall>, result: Result<string, Fault>)

  /** What PublishMultimediaComponent(uri) does: the first sighting of the
      key registers a new item and publishes it unless it already carries a
      published path; a later sighting publishes nothing and returns the
      stored path. */
  function Dispatch(engine: Engine, target: Option<string>, registry: map<string, Option<string>>, uri: string): (d: Dispatched)
  {
    var key := RegistryKey(uri);
    if uri !in engine.validUris then Dispatched(registry, [], Failure(InvalidUri(uri)))
    else if key in registry then Dispatched(registry, [], ReferencePath(registry[key], uri))
    else match engine.createdPath(uri)
      case Some(path) => Dispatched(registry[key := Some(path)], [], Success(path))
      case None =>
        match Placement(engine, target, uri)
        case Failure(fault) => Dispatched(registry[key := None], [], Failure(fault))
        case Success(call) =>
          var url := engine.binaryUrl(call);
          Dispatched(registry[key := Some(url)], [call], Success(url))
  }

  /** Every dispatch logs at most one publication, and only for a key the
      registry lacked; it keeps every entry and adds at most its own key; an
      invalid URI fails with nothing changed; a key already held returns its
      stored path and changes nothing; a successful result is the path
      stored under the key, and a publication's URL when one is logged. */
  lemma DispatchProperties(engine: Engine, target: Option<string>, registry: map<string, Option<string>>, uri: string,
                           d: Dispatched)
    requires d == Dispatch(engine, target, registry, uri)
    ensures |d.published| <= 1
    ensures d.published != [] ==> RegistryKey(uri) !in registry
    ensures Extends(registry, d.registry)
    ensures d.registry.Keys <= registry.Keys + {RegistryKey(uri)}
    ensures uri !in engine.validUris ==> d == Dispatched(registry, [], Failure(InvalidUri(uri)))
    ensures RegistryKey(uri) in registry ==> d.registry == registry && d.published == []
    ensures RegistryKey(uri) in registry && uri in engine.validUris ==>
      d.result == ReferencePath(registry[RegistryKey(uri)], uri)
    ensures uri in engine.validUris ==> RegistryKey(uri) in d.registry
    ensures d.result.Success? ==> RegistryKey(uri) in d.registry && d.registry[RegistryKey(uri)] == Some(d.result.value)
    ensures d.published != [] ==> d.result == Success(engine.binaryUrl(d.published[0]))

  {
  }

  /** The first sighting of a URI whose new item has no published path
      publishes it as Placement decides: the key is registered with the
      binary's URL, which is returned; or, when placement fails, the key is
      registered without a path and the failure returned. */
  lemma NewItemIsPublished(engine: Engine, target: Option<string>, registry: map<string, Option<string>>, uri: string)
    requires uri in engine.validUris && RegistryKey(uri) !in registry && engine.createdPath(uri).None?
    ensures var d := Dispatch(engine, target, registry, uri);
      match Placement(engine, target, uri)
      case Success(call) =>
        && d.published == [call]
        && d.registry == registry[RegistryKey(uri) := Some(engine.binaryUrl(call))]
        && d.result == Success(engine.binaryUrl(call))
      case Failure(f) =>
        d.published == [] && d.registry == registry[RegistryKey(uri) := None] && d.result == Failure(f)
  {
  }

  /** A new item that already carries a published path is registered and its
      path returned, but it is not published. */
  lemma PrePublishedItemIsNotPublished(engine: Engine, target: Option<string>, registry: map<string, Option<string>>, uri: string)
    requires uri in engine.validUris && RegistryKey(uri) !in registry
    requires engine.createdPath(uri).Some?
    ensures var d := Dispatch(engine, target, registry, uri);
      d.published == [] && d.result == Success(engine.createdPath(uri).value)
      && d.registry == registry[RegistryKey(uri) := engine.createdPath(uri)]
  {
  }

  /** The effect of a sequence of calls, one after the other in one pass. */
  datatype Run = Run(registry: map<string, Option<string>>, published: seq<PublishCall>, results: seq<Result<string, Fault>>)

  function RunAll(engine: Engine, target: Option<string>, registry: map<string, Option<string>>, uris: seq<string>): (r: Run)
    ensures |r.results| == |uris|
    decreases |uris|
  {
    if uris == [] then Run(registry, [], [])
    else
      var d := Dispatch(engine, target, registry, uris[0]);
      var rest := RunAll(engine, target, d.registry, uris[1..]);
      Run(rest.registry, d.published + rest.published, [d.result] + rest.results)
  }

  /** Once a key is registered, further calls for it change nothing and all
      return the same result: the stored path, or the same failure. */
  lemma {:induction false} RepeatedAfterRegistration(engine: Engine, target: Option<string>, registry: map<string, Option<string>>, uri: string, uris: seq<string>)
    requires RegistryKey(uri) in registry
    requires forall i :: 0 <= i < |uris| ==> uris[i] == uri
    ensures var r := RunAll(engine, target, registry, uris);
      r.registry == registry && r.published == []
      && forall i :: 0 <= i < |uris| ==> r.results[i] == Dispatch(engine, target, registry, uri).result
    decreases |uris|
  {
    if uris != [] {
      RepeatedAfterRegistration(engine, target, registry, uri, uris[1..]);
    }
  }

  /** The deduplication invariant: any number of calls with the same URI string
      publish at most once, only if the key was not yet registered, and every
      call that succeeds returns the one path the registry holds for it. */
  lemma {:induction false} RepeatedCallsPublishOnce(engine: Engine, target: Option<string>, registry: map<string, Option<string>>, uri: string, uris: seq<string>)
    requires forall i :: 0 <= i < |uris| ==> uris[i] == uri
    ensures var r := RunAll(engine, target, registry, uris);
      && |r.published| <= 1
      && (r.published != [] ==> RegistryKey(uri) !in registry)
      && forall i :: 0 <= i < |uris| && r.results[i].Success? ==>
           RegistryKey(uri) in r.registry && r.registry[RegistryKey(uri)] == Some(r.results[i].value)
  {
    if uris != [] {
      var d := Dispatch(engine, target, registry, uri);
      DispatchProperties(engine, target, registry, uri, d);
      var rest := RunAll(engine, target, d.registry, uris[1..]);
      if RegistryKey(uri) in d.registry {
        RepeatedAfterRegistration(engine, target, d.registry, uri, uris[1..]);
        assert rest.registry == d.registry;
        forall i | 1 <= i < |uris| ensures RunAll(engine, target, registry, uris).results[i] == rest.results[i - 1] { }
      } else {
        assert d.registry == registry && d.published == [];
        RepeatedCallsPublishOnce(engine, target, d.registry, uri, uris[1..]);
      }
    }
  }

  // ---------------------------------------------------------------------------
  // PublishMultimediaComponent(Dynamic.Component): the decision table

  datatype FieldAction = NotMultimedia | ProcessEclStub | AlreadyProcessed | PublishAndSetUrl

  /** Which of the four things the structured overload does. */
  function FieldDecision(hasMultimedia: bool, mimeType: string, eclEnabled: bool, eclId: Option<string>): (a: FieldAction)
    ensures a == NotMultimedia <==> !hasMultimedia
    ensures a == ProcessEclStub <==> hasMultimedia && mimeType == EclMimeType && eclEnabled && eclId.None?
    ensures a == AlreadyProcessed <==> hasMultimedia && eclId.Some?
    ensures a == PublishAndSetUrl <==> hasMultimedia && eclId.None? && !(mimeType == EclMimeType && eclEnabled)
  {
    if !hasMultimedia then NotMultimedia
    else if mimeType == EclMimeType && eclEnabled && eclId.None? then ProcessEclStub
    else if eclId.Some? then AlreadyProcessed
    else PublishAndSetUrl
  }

  // ---------------------------------------------------------------------------
  // ProcessRichTextXlink: rewriting one element

  /** The XPath selection of the rich-text pass: an xlink:href attribute whose value starts with "tcm:". */
  function Selected(e: Element): (selected: bool)
    ensures selected <==> |XlinkHref(e)| >= 4 && XlinkHref(e)[..4] == "tcm:"
  {
    var name := AttrName(XlinkNamespace, "href");
    name in e.attributes && |e.attributes[name]| >= 4 && e.attributes[name][..4] == "tcm:"
  }

  /** The attribute the resolved URL goes to; XHTML names are case-sensitive. */
  function UrlAttribute(localName: string): (name: AttrName)
    ensures name.namespaceUri == ""
    ensures name.localName == "src" <==> localName == "img"
    ensures name.localName == "href" <==> localName != "img"
  {
    AttrName("", if localName == "img" then "src" else "href")
  }

  /** SetAttribute(UrlAttribute, url) on the element. */
  function WithUrl(e: Element, url: string): (r: Element)
    ensures r.localName == e.localName
    ensures r.attributes.Keys == e.attributes.Keys + {UrlAttribute(e.localName)}
    ensures r.attributes[UrlAttribute(e.localName)] == url
    ensures forall a :: a in e.attributes && a != UrlAttribute(e.localName) ==> r.attributes[a] == e.attributes[a]
    ensures XlinkHref(r) == XlinkHref(e)
  {
    var name := UrlAttribute(e.localName);
    assert name != AttrName(XlinkNamespace, "href");
    Element(e.localName, e.attributes[name := url])
  }

  /** How a link is resolved. */
  datatype LinkKind = NotBinaryLink | EclLink(href: string) | BinaryLink(componentId: string)

  function ClassifyLink(engine: Engine, eclEnabled: bool, e: Element): (k: LinkKind)
    ensures !k.NotBinaryLink? <==>
      XlinkHref(e) != "" && ComponentAt(engine, XlinkHref(e)).Some?
      && ComponentAt(engine, XlinkHref(e)).value.binaryContent.Some?
    ensures k.EclLink? ==> (k.href == XlinkHref(e) && eclEnabled
      && ComponentAt(engine, XlinkHref(e)).value.binaryContent.value.mimeType == EclMimeType)
    ensures k.BinaryLink? ==> (k.componentId == ComponentAt(engine, XlinkHref(e)).value.id
      && !(eclEnabled && ComponentAt(engine, XlinkHref(e)).value.binaryContent.value.mimeType == EclMimeType))
  {
    var href := XlinkHref(e);
    if href == "" then NotBinaryLink
    else match ComponentAt(engine, href)
      case None => NotBinaryLink
      case Some(c) =>
        if c.binaryContent.None? then NotBinaryLink
        else if c.binaryContent.value.mimeType == EclMimeType && eclEnabled then EclLink(href)
        else BinaryLink(c.id)
  }

  /** `after` is `before` as the rich-text pass leaves it, given the final registry. */
  predicate Rewritten(engine: Engine, eclEnabled: bool, registry: map<string, Option<string>>, before: Element, after: Element) {
    if !Selected(before) then after == before
    else match ClassifyLink(engine, eclEnabled, before)
      case NotBinaryLink => after == before
      case EclLink(href) => after == WithUrl(before, engine.eclLinkUrl(href))
      case BinaryLink(id) =>
        RegistryKey(id) in registry && registry[RegistryKey(id)].Some?
        && after == WithUrl(before, registry[RegistryKey(id)].value)
  }

  /** A rewritten element keeps its name and its xlink:href; it changes only
      when it is selected and links to a component with binary content, and
      then only in the src attribute of an img, the href attribute otherwise. */
  lemma RewriteTouchesOnlyUrl(engine: Engine, eclEnabled: bool, registry: map<string, Option<string>>, before: Element, after: Element)
    requires Rewritten(engine, eclEnabled, registry, before, after)
    ensures after.localName == before.localName && XlinkHref(after) == XlinkHref(before)
    ensures after != before ==> Selected(before) && !ClassifyLink(engine, eclEnabled, before).NotBinaryLink?
    ensures forall a :: a in before.attributes && a != UrlAttribute(before.localName) ==>
      a in after.attributes && after.attributes[a] == before.attributes[a]
  {
  }

  /** The rewrite of an element stays valid as the registry grows. */
  lemma RewrittenStable(engine: Engine, eclEnabled: bool, r0: map<string, Option<string>>, r1: map<string, Option<string>>, before: Element, after: Element)
    requires Extends(r0, r1)
    requires Rewritten(engine, eclEnabled, r0, before, after)
    ensures Rewritten(engine, eclEnabled, r1, before, after)
  {
  }
  // ---------------------------------------------------------------------------
  // PublishBinariesInRichTextField: the pass over a fragment

  /** What resolving one element does: the registry and the publications
      after it, and the element as rewritten, or the failure. */
  datatype Resolved = Resolved(registry: map<string, Option<string>>, published: seq<PublishCall>, result: Result<Element, Fault>)

  /** One element of the pass: an element outside the selection, or a link
      that is not to a binary, is kept; an ECL link is resolved by the ECL
      library; any other binary is published as Dispatch says. */
  function ResolveLink(engine: Engine, eclEnabled: bool, target: Option<string>,
                       registry: map<string, Option<string>>, e: Element): (x: Resolved)
  {
    if !Selected(e) then Resolved(registry, [], Success(e))
    else match ClassifyLink(engine, eclEnabled, e)
      case NotBinaryLink => Resolved(registry, [], Success(e))
      case EclLink(href) =>
        Resolved(registry, [EclLinkProcessing(href, target)], Success(WithUrl(e, engine.eclLinkUrl(href))))
      case BinaryLink(id) =>
        var d := Dispatch(engine, target, registry, id);
        Resolved(d.registry, d.published, match d.result
                                          case Success(url) => Success(WithUrl(e, url))
                                          case Failure(f) => Failure(f))
  }

  /** Resolving an element keeps every registry entry, logs at most one
      entry and only for a selected element, and a successful resolution is
      the rewrite of the element against the registry it leaves. */
  lemma ResolvedLinkIsRewritten(engine: Engine, eclEnabled: bool, target: Option<string>,
                                registry: map<string, Option<string>>, e: Element)
    ensures var x := ResolveLink(engine, eclEnabled, target, registry, e);
      && Extends(registry, x.registry)
      && |x.published| <= 1
      && (x.published != [] ==> Selected(e))
      && x.registry.Keys <= registry.Keys + LinkKey(engine, eclEnabled, e)
      && (x.result.Success? ==> Rewritten(engine, eclEnabled, x.registry, e, x.result.value))
  {
    if Selected(e) && ClassifyLink(engine, eclEnabled, e).BinaryLink? {
      var id := ClassifyLink(engine, eclEnabled, e).componentId;
      DispatchProperties(engine, target, registry, id, Dispatch(engine, target, registry, id));
    }
  }

  /** The result of a pass: the registry and the publications after it, and
      the rewritten fragment, or the first failure. */
  datatype Pass = Pass(registry: map<string, Option<string>>, published: seq<PublishCall>, result: Result<seq<Element>, Fault>)

  /** `rest` with the elements `done` put in front of it, a failure kept as it is. */
  function Prepend(done: seq<Element>, rest: Result<seq<Element>, Fault>): (r: Result<seq<Element>, Fault>)
    ensures r.Success? <==> rest.Success?
    ensures r.Success? ==> r.value == done + rest.value
    ensures r.Failure? ==> r.error == rest.error
  {
    match rest
    case Success(elements) => Success(done + elements)
    case Failure(f) => Failure(f)
  }

  /** The elements of the fragment resolved in document order, each against
      the registry the previous ones left; the first failure ends the pass. */
  function RichTextPass(engine: Engine, eclEnabled: bool, target: Option<string>,
                        registry: map<string, Option<string>>, fragment: seq<Element>): (p: Pass)
    decreases |fragment|
  {
    if fragment == [] then Pass(registry, [], Success([]))
    else
      var x := ResolveLink(engine, eclEnabled, target, registry, fragment[0]);
      match x.result
      case Failure(f) => Pass(x.registry, x.published, Failure(f))
      case Success(e) =>
        var rest := RichTextPass(engine, eclEnabled, target, x.registry, fragment[1..]);
        Pass(rest.registry, x.published + rest.published, Prepend([e], rest.result))
  }

  /** A pass keeps every registry entry and, when it succeeds, returns one
      element for each element of the fragment. */
  lemma {:induction false} PassExtendsRegistry(engine: Engine, eclEnabled: bool, target: Option<string>,
                                               registry: map<string, Option<string>>, fragment: seq<Element>)
    ensures var p := RichTextPass(engine, eclEnabled, target, registry, fragment);
      Extends(registry, p.registry) && (p.result.Success? ==> |p.result.value| == |fragment|)
    decreases |fragment|
  {
    if fragment != [] {
      var x := ResolveLink(engine, eclEnabled, target, registry, fragment[0]);
      ResolvedLinkIsRewritten(engine, eclEnabled, target, registry, fragment[0]);
      if x.result.Success? {
        PassExtendsRegistry(engine, eclEnabled, target, x.registry, fragment[1..]);
      }
    }
  }

  /** One step of the pass, at position i: the element there is resolved
      against the registry, and the rest of the pass starts from what it left. */
  lemma PassStep(engine: Engine, eclEnabled: bool, target: Option<string>,
                 registry: map<string, Option<string>>, fragment: seq<Element>, i: int)
    requires 0 <= i < |fragment|
    ensures var x := ResolveLink(engine, eclEnabled, target, registry, fragment[i]);
      var p := RichTextPass(engine, eclEnabled, target, registry, fragment[i..]);
      && (x.result.Failure? ==> p == Pass(x.registry, x.published, Failure(x.result.error)))
      && (x.result.Success? ==>
            var rest := RichTextPass(engine, eclEnabled, target, x.registry, fragment[i + 1..]);
            p == Pass(rest.registry, x.published + rest.published, Prepend([x.result.value], rest.result)))
  {
    assert fragment[i..][0] == fragment[i] && fragment[i..][1..] == fragment[i + 1..];
  }

  /** The pass seen from position i: what is done so far plus the rest of the
      pass, advanced over the element at i. */
  lemma PassAdvance(engine: Engine, eclEnabled: bool, target: Option<string>, registry: map<string, Option<string>>,
                    fragment: seq<Element>, i: int, whole: Pass, published: seq<PublishCall>, elements: seq<Element>)
    requires 0 <= i < |fragment|
    requires var rest := RichTextPass(engine, eclEnabled, target, registry, fragment[i..]);
      whole == Pass(rest.registry, published + rest.published, Prepend(elements, rest.result))
    ensures var x := ResolveLink(engine, eclEnabled, target, registry, fragment[i]);
      && (x.result.Failure? ==> whole == Pass(x.registry, published + x.published, Failure(x.result.error)))
      && (x.result.Success? ==>
            var rest := RichTextPass(engine, eclEnabled, target, x.registry, fragment[i + 1..]);
            whole == Pass(rest.registry, (published + x.published) + rest.published, Prepend(elements + [x.result.value], rest.result)))
  {
    var x := ResolveLink(engine, eclEnabled, target, registry, fragment[i]);
    PassStep(engine, eclEnabled, target, registry, fragment, i);
    if x.result.Success? {
      var rest := RichTextPass(engine, eclEnabled, target, x.registry, fragment[i + 1..]);
      PrependTwice(elements, [x.result.value], rest.result);
      assert published + (x.published + rest.published) == (published + x.published) + rest.published;
    }
  }

  /** The pass seen from position 0: nothing done yet. */
  lemma PassStart(engine: Engine, eclEnabled: bool, target: Option<string>, registry: map<string, Option<string>>,
                  fragment: seq<Element>)
    ensures var whole := RichTextPass(engine, eclEnabled, target, registry, fragment);
      var rest := RichTextPass(engine, eclEnabled, target, registry, fragment[0..]);
      whole == Pass(rest.registry, [] + rest.published, Prepend([], rest.result))
  {
    assert fragment[0..] == fragment;
    var whole := RichTextPass(engine, eclEnabled, target, registry, fragment);
    assert [] + whole.published == whole.published;
    if whole.result.Success? {
      assert [] + whole.result.value == whole.result.value;
    }
  }

  /** The pass seen from the end of the fragment: everything done. */
  lemma PassFinish(engine: Engine, eclEnabled: bool, target: Option<string>, registry: map<string, Option<string>>,
                   fragment: seq<Element>, whole: Pass, published: seq<PublishCall>, elements: seq<Element>)
    requires var rest := RichTextPass(engine, eclEnabled, target, registry, fragment[|fragment|..]);
      whole == Pass(rest.registry, published + rest.published, Prepend(elements, rest.result))
    ensures whole == Pass(registry, published, Success(elements))
  {
    assert fragment[|fragment|..] == [];
    assert elements + [] == elements && published + [] == published;
  }

  lemma AppendAssoc(a: seq<PublishCall>, b: seq<PublishCall>, c: seq<PublishCall>)
    ensures a + b + c == a + (b + c)
  {
  }

  lemma PrependTwice(a: seq<Element>, b: seq<Element>, r: Result<seq<Element>, Fault>)
    ensures Prepend(a, Prepend(b, r)) == Prepend(a + b, r)
  {
    if r.Success? {
      assert a + (b + r.value) == (a + b) + r.value;
    }
  }

  /** How many elements of the fragment the XPath selects. */
  function SelectedCount(fragment: seq<Element>): (n: nat)
    ensures n <= |fragment|
    decreases |fragment|
  {
    if fragment == [] then 0
    else (if Selected(fragment[0]) then 1 else 0) + SelectedCount(fragment[1..])
  }

  /** The package item name of the binary a selected link publishes
      through PublishMultimediaComponent, if it is one. */
  function LinkKey(engine: Engine, eclEnabled: bool, e: Element): set<string>
  {
    if Selected(e) && ClassifyLink(engine, eclEnabled, e).BinaryLink?
    then {RegistryKey(ClassifyLink(engine, eclEnabled, e).componentId)} else {}
  }

  /** The package item names of the binaries the selected links of the
      fragment publish through PublishMultimediaComponent. */
  function LinkedKeys(engine: Engine, eclEnabled: bool, fragment: seq<Element>): set<string>
    decreases |fragment|
  {
    if fragment == [] then {}
    else LinkKey(engine, eclEnabled, fragment[0]) + LinkedKeys(engine, eclEnabled, fragment[1..])
  }

  /** A successful pass leaves every element rewritten against the registry
      the whole pass ends with. */
  lemma {:induction false} PassRewritesEveryElement(engine: Engine, eclEnabled: bool, target: Option<string>,
                                                    registry: map<string, Option<string>>, fragment: seq<Element>)
    ensures var p := RichTextPass(engine, eclEnabled, target, registry, fragment);
      p.result.Success? ==> |p.result.value| == |fragment| && forall i :: 0 <= i < |fragment| ==>
        Rewritten(engine, eclEnabled, p.registry, fragment[i], p.result.value[i])
    decreases |fragment|
  {
    var p := RichTextPass(engine, eclEnabled, target, registry, fragment);
    PassExtendsRegistry(engine, eclEnabled, target, registry, fragment);
    if fragment != [] && p.result.Success? {
      var x := ResolveLink(engine, eclEnabled, target, registry, fragment[0]);
      var rest := RichTextPass(engine, eclEnabled, target, x.registry, fragment[1..]);
      ResolvedLinkIsRewritten(engine, eclEnabled, target, registry, fragment[0]);
      PassExtendsRegistry(engine, eclEnabled, target, x.registry, fragment[1..]);
      PassRewritesEveryElement(engine, eclEnabled, target, x.registry, fragment[1..]);
      RewrittenStable(engine, eclEnabled, x.registry, p.registry, fragment[0], x.result.value);
      forall i | 1 <= i < |fragment|
        ensures Rewritten(engine, eclEnabled, p.registry, fragment[i], p.result.value[i])
      {
        assert fragment[i] == fragment[1..][i - 1];
      }
    }
  }

  /** A fragment without a selected link comes back as it is, with nothing
      published and the registry untouched. */
  lemma {:induction false} PassWithoutLinksChangesNothing(engine: Engine, eclEnabled: bool, target: Option<string>,
                                                          registry: map<string, Option<string>>, fragment: seq<Element>)
    requires forall i :: 0 <= i < |fragment| ==> !Selected(fragment[i])
    ensures RichTextPass(engine, eclEnabled, target, registry, fragment) == Pass(registry, [], Success(fragment))
    decreases |fragment|
  {
    if fragment != [] {
      assert !Selected(fragment[0]);
      PassWithoutLinksChangesNothing(engine, eclEnabled, target, registry, fragment[1..]);
      assert [fragment[0]] + fragment[1..] == fragment;
    }
  }

  /** Each element the XPath selects adds at most one entry to the publication
      log, and no other element adds any. */
  lemma {:induction false} PassLogsAtMostOncePerLink(engine: Engine, eclEnabled: bool, target: Option<string>,
                                                     registry: map<string, Option<string>>, fragment: seq<Element>)
    ensures |RichTextPass(engine, eclEnabled, target, registry, fragment).published| <= SelectedCount(fragment)
    decreases |fragment|
  {
    if fragment != [] {
      var x := ResolveLink(engine, eclEnabled, target, registry, fragment[0]);
      ResolvedLinkIsRewritten(engine, eclEnabled, target, registry, fragment[0]);
      PassLogsAtMostOncePerLink(engine, eclEnabled, target, x.registry, fragment[1..]);
    }
  }

  /** The pass adds to the registry only the item names of the binaries its
      selected links point to. */
  lemma {:induction false} PassRegistersOnlyLinkedKeys(engine: Engine, eclEnabled: bool, target: Option<string>,
                                                       registry: map<string, Option<string>>, fragment: seq<Element>)
    ensures RichTextPass(engine, eclEnabled, target, registry, fragment).registry.Keys
      <= registry.Keys + LinkedKeys(engine, eclEnabled, fragment)
    decreases |fragment|
  {
    if fragment != [] {
      var x := ResolveLink(engine, eclEnabled, target, registry, fragment[0]);
      ResolvedLinkIsRewritten(engine, eclEnabled, target, registry, fragment[0]);
      PassRegistersOnlyLinkedKeys(engine, eclEnabled, target, x.registry, fragment[1..]);
    }
  }

  /** How many of the publications are binaries (not ECL processing). */
  function BinaryCount(published: seq<PublishCall>): (n: nat)
    ensures n <= |published|
    decreases |published|
  {
    if published == [] then 0
    else (if published[0].EclLinkProcessing? || published[0].EclStubProcessing? then 0 else 1) + BinaryCount(published[1..])
  }

  /** Deduplication over a pass: the binaries a fragment publishes are at most
      as many as the distinct binaries it links to that the package did not
      already hold, however often each is linked. */
  lemma {:induction false} PassPublishesEachBinaryOnce(engine: Engine, eclEnabled: bool, target: Option<string>,
                                                       registry: map<string, Option<string>>, fragment: seq<Element>)
    ensures var p := RichTextPass(engine, eclEnabled, target, registry, fragment);
      BinaryCount(p.published) <= |LinkedKeys(engine, eclEnabled, fragment) - registry.Keys|
    decreases |fragment|
  {
    if fragment != [] {
      var x := ResolveLink(engine, eclEnabled, target, registry, fragment[0]);
      var linked := LinkedKeys(engine, eclEnabled, fragment);
      var later := LinkedKeys(engine, eclEnabled, fragment[1..]);
      var added := ResolvedBinaries(engine, eclEnabled, target, registry, fragment[0]);
      assert linked == LinkKey(engine, eclEnabled, fragment[0]) + later;
      if x.result.Success? {
        var rest := RichTextPass(engine, eclEnabled, target, x.registry, fragment[1..]);
        assert RichTextPass(engine, eclEnabled, target, registry, fragment).published == x.published + rest.published;
        PassPublishesEachBinaryOnce(engine, eclEnabled, target, x.registry, fragment[1..]);
        BinaryCountAppend(x.published, rest.published);
        SubsetCard(later - x.registry.Keys, linked - registry.Keys - added);
      }
    }
  }

  /** Resolving one element publishes a binary only for a link whose item
      name the registry lacked and then holds; returned as a set of at most
      that one name. */
  lemma ResolvedBinaries(engine: Engine, eclEnabled: bool, target: Option<string>,
                         registry: map<string, Option<string>>, e: Element) returns (added: set<string>)
    ensures var x := ResolveLink(engine, eclEnabled, target, registry, e);
      && |added| == BinaryCount(x.published)
      && added <= LinkKey(engine, eclEnabled, e) - registry.Keys
      && added <= x.registry.Keys
      && registry.Keys <= x.registry.Keys
  {
    var x := ResolveLink(engine, eclEnabled, target, registry, e);
    added := {};
    if Selected(e) && ClassifyLink(engine, eclEnabled, e).BinaryLink? {
      var id := ClassifyLink(engine, eclEnabled, e).componentId;
      var d := Dispatch(engine, target, registry, id);
      DispatchProperties(engine, target, registry, id, d);
      if d.published != [] {
        added := {RegistryKey(id)};
        assert d.published == [d.published[0]];
        BinaryCountOfOne(d.published[0]);
      }
    } else if x.published != [] {
      assert x.published == [x.published[0]];
      BinaryCountOfOne(x.published[0]);
    }
  }

  lemma BinaryCountOfOne(call: PublishCall)
    ensures BinaryCount([call]) == if call.EclLinkProcessing? || call.EclStubProcessing? then 0 else 1
  {
    assert [call][1..] == [];
  }

  lemma {:induction false} BinaryCountAppend(a: seq<PublishCall>, b: seq<PublishCall>)
    ensures BinaryCount(a + b) == BinaryCount(a) + BinaryCount(b)
    decreases |a|
  {
    if a == [] {
      assert a + b == b;
    } else {
      assert (a + b)[1..] == a[1..] + b;
      BinaryCountAppend(a[1..], b);
    }
  }

  lemma {:induction false} SubsetCard(a: set<string>, b: set<string>)
    requires a <= b
    ensures |a| <= |b|
    decreases |b|
  {
    if b != {} {
      var y :| y in b;
      SubsetCard(a - {y}, b - {y});
    }
  }
}
