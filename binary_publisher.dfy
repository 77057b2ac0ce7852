/**
  BinaryPublisher (source/DD4T.Templates.Base/Utils/BinaryPublisher.cs): one
  per rendering pass. It publishes the binaries of multimedia components once
  per pass, keeping the published items in the templating package under
  "PublishMultimedia_" + URI, and rewrites rich-text links to them.
*/
module BinaryPublishing {
  import opened Wrappers
  import opened Host
  import opened Publishing
  import FileNames

  class BinaryPublisher {
    const package: Package
    const engine: Engine
    /** engine.PublishingContext.RenderedItem */
    const renderedItem: RenderedItem
    /** engine.PublishingContext.ResolvedItem.Template.Id */
    const currentTemplate: string := engine.templateId
    /** targetStructureGroupUri; absent means host-default placement. */
    const targetStructureGroup: Option<string>

    /** The argument, when given, overrides the package parameter; a value that
        is not a valid TCM URI is logged and leaves the target absent. */
    constructor (package: Package, engine: Engine, renderedItem: RenderedItem, targetStructureGroup: Option<string>)
      ensures this.package == package && this.engine == engine && this.renderedItem == renderedItem
      ensures currentTemplate == engine.templateId
      ensures this.targetStructureGroup == ResolveTarget(engine, targetStructureGroup,
        if TargetParameterName in package.values then Some(package.values[TargetParameterName]) else None)
    {
      this.package := package;
      this.engine := engine;
      this.renderedItem := renderedItem;
      var param := targetStructureGroup;
      if param.None? {
        param := package.GetValue(TargetParameterName);
      }
      var target: Option<string> := None;
      if param.Some? {
        if param.value in engine.validUris {
          target := Some(engine.localUri(param.value));
        }
        // otherwise: logged as not a valid TCM URI; the constructor stops here
      }
      this.targetStructureGroup := target;
    }

    /** Rewrites the links of a rich-text fragment, element by element in
        document order; a failure of the publication propagates. */
    method PublishBinariesInRichTextField(fragment: seq<Element>, eclEnabled: bool) returns (result: Result<seq<Element>, Fault>)
      modifies package, renderedItem
      ensures var p := RichTextPass(engine, eclEnabled, targetStructureGroup, old(package.Registry()), fragment);
        && package.Registry() == p.registry
        && renderedItem.calls == old(renderedItem.calls) + p.published
        && result == p.result
      ensures Extends(old(package.Registry()), package.Registry())
      ensures result.Success? ==> |result.value| == |fragment|
      ensures result.Success? ==> forall i :: 0 <= i < |fragment| ==>
        Rewritten(engine, eclEnabled, package.Registry(), fragment[i], result.value[i])
      ensures (forall i :: 0 <= i < |fragment| ==> !Selected(fragment[i])) ==>
        result == Success(fragment) && package.Registry() == old(package.Registry())
        && renderedItem.calls == old(renderedItem.calls)
    {
      ghost var registry := package.Registry();
      PassExtendsRegistry(engine, eclEnabled, targetStructureGroup, registry, fragment);
      PassRewritesEveryElement(engine, eclEnabled, targetStructureGroup, registry, fragment);
      if forall i :: 0 <= i < |fragment| ==> !Selected(fragment[i]) {
        PassWithoutLinksChangesNothing(engine, eclEnabled, targetStructureGroup, registry, fragment);
      }
      result := RewriteLinks(fragment, eclEnabled, registry, renderedItem.calls);
    }

    /** The loop of the rich-text pass: each element the XPath selects, in
        document order, goes through ProcessRichTextXlink. */
    method RewriteLinks(fragment: seq<Element>, eclEnabled: bool, ghost registry0: map<string, Option<string>>, ghost calls0: seq<PublishCall>)
      returns (result: Result<seq<Element>, Fault>)
      requires registry0 == package.Registry() && calls0 == renderedItem.calls
      modifies package, renderedItem
      ensures var p := RichTextPass(engine, eclEnabled, targetStructureGroup, registry0, fragment);
        && package.Registry() == p.registry
        && renderedItem.calls == calls0 + p.published
        && result == p.result
    {
      ghost var registry := registry0;
      ghost var whole := RichTextPass(engine, eclEnabled, targetStructureGroup, registry, fragment);
      var elements: seq<Element> := [];
      ghost var published: seq<PublishCall> := [];
      PassStart(engine, eclEnabled, targetStructureGroup, registry, fragment);
      var i := 0;
      while i < |fragment|
        invariant 0 <= i <= |fragment| && |elements| == i
        invariant registry == package.Registry()
        invariant renderedItem.calls == calls0 + published
        invariant var rest := RichTextPass(engine, eclEnabled, targetStructureGroup, registry, fragment[i..]);
          whole == Pass(rest.registry, published + rest.published, Prepend(elements, rest.result))
      {
        ghost var x;
        var r;
        r, x := RewriteNext(fragment, eclEnabled, i, whole, registry, calls0, published, elements);
        if r.Failure? {
          return Failure(r.error);
        }
        registry := x.registry;
        published := published + x.published;
        elements := elements + [r.value];
        i := i + 1;
      }
      PassFinish(engine, eclEnabled, targetStructureGroup, registry, fragment, whole, published, elements);
      result := Success(elements);
    }

    /** The loop step of RewriteLinks: resolves the element at i and relates
        the pass still to come to the state after it. */
    method RewriteNext(fragment: seq<Element>, eclEnabled: bool, i: int, ghost whole: Pass,
                       ghost registry: map<string, Option<string>>, ghost calls: seq<PublishCall>,
                       ghost published: seq<PublishCall>, ghost elements: seq<Element>)
      returns (r: Result<Element, Fault>, ghost x: Resolved)
      requires 0 <= i < |fragment|
      requires registry == package.Registry() && renderedItem.calls == calls + published
      requires var rest := RichTextPass(engine, eclEnabled, targetStructureGroup, registry, fragment[i..]);
        whole == Pass(rest.registry, published + rest.published, Prepend(elements, rest.result))
      modifies package, renderedItem
      ensures x == ResolveLink(engine, eclEnabled, targetStructureGroup, registry, fragment[i]) && r == x.result
      ensures package.Registry() == x.registry && renderedItem.calls == calls + (published + x.published)
      ensures r.Failure? ==> whole == Pass(x.registry, published + x.published, Failure(r.error))
      ensures r.Success? ==>
        var rest := RichTextPass(engine, eclEnabled, targetStructureGroup, x.registry, fragment[i + 1..]);
        whole == Pass(rest.registry, (published + x.published) + rest.published, Prepend(elements + [r.value], rest.result))
    {
      x := ResolveLink(engine, eclEnabled, targetStructureGroup, registry, fragment[i]);
      PassAdvance(engine, eclEnabled, targetStructureGroup, registry, fragment, i, whole, published, elements);
      r := ResolveElement(fragment[i], eclEnabled, registry, calls + published);
      AppendAssoc(calls, published, x.published);
    }

    /** One element of the rich-text pass: ProcessRichTextXlink for an element
        the XPath selects, nothing for any other. */
    method ResolveElement(element: Element, eclEnabled: bool, ghost registry: map<string, Option<string>>, ghost calls: seq<PublishCall>)
      returns (result: Result<Element, Fault>)
      requires registry == package.Registry() && calls == renderedItem.calls
      modifies package, renderedItem
      ensures var x := ResolveLink(engine, eclEnabled, targetStructureGroup, registry, element);
        package.Registry() == x.registry && renderedItem.calls == calls + x.published && result == x.result
    {
      if Selected(element) {
        result := ProcessRichTextXlink(element, eclEnabled);
      } else {
        result := Success(element);
      }
    }

    /** Publishes the binary of the component at `uri` once per pass and
        returns its reference path. */
    method PublishMultimediaComponent(uri: string) returns (result: Result<string, Fault>)
      modifies package, renderedItem
      ensures var d := Dispatch(engine, targetStructureGroup, old(package.Registry()), uri);
        && package.Registry() == d.registry
        && renderedItem.calls == old(renderedItem.calls) + d.published
        && result == d.result
    {
      var itemName := RegistryKey(uri);
      if uri !in engine.validUris {
        return Failure(InvalidUri(uri));
      }
      var mmItem := package.GetByName(itemName);
      if mmItem == null {
        result := PublishNewItem(uri);
      } else {
        result := GetReferencePath(mmItem, uri);
      }
    }

    /** The first call of a pass for `uri`: a new item is created and pushed
        into the package, and published unless it already has a path. */
    method PublishNewItem(uri: string) returns (result: Result<string, Fault>)
      requires uri in engine.validUris && RegistryKey(uri) !in package.items
      modifies package, renderedItem
      ensures var d := Dispatch(engine, targetStructureGroup, old(package.Registry()), uri);
        && package.Registry() == d.registry
        && renderedItem.calls == old(renderedItem.calls) + d.published
        && result == d.result
    {
      var itemName := RegistryKey(uri);
      ghost var registry := package.Registry();
      var mmItem := new Item(uri, engine.createdPath(uri));
      var fault: Option<Fault> := None;
      if mmItem.PublishedPath().None? {
        fault := PublishItem(mmItem);
      }
      assert package.items == old(package.items);
      assert forall k :: k in package.items ==> unchanged(package.items[k]);
      assert package.Registry() == registry;
      package.PushItem(itemName, mmItem);
      if fault.Some? {
        assert Dispatch(engine, targetStructureGroup, registry, uri)
            == Dispatched(registry[itemName := None], [], Failure(fault.value));
        return Failure(fault.value);
      }
      result := GetReferencePath(mmItem, uri);
    }

    /** Publishes a structured multimedia component and sets its Url, unless
        it is not multimedia, or it is an ECL stub (processed by the ECL
        library, or already processed). */
    method PublishDynamicComponent(component: DynamicComponent, eclEnabled: bool) returns (fault: Option<Fault>)
      modifies package, renderedItem, component
      modifies if component.multimedia == null then {} else {component.multimedia}
      ensures var action := FieldDecision(component.multimedia != null,
          if component.multimedia == null then "" else component.multimedia.mimeType, eclEnabled, old(component.eclId));
        match action
        case NotMultimedia =>
          && fault.None? && component.eclId == old(component.eclId)
          && package.Registry() == old(package.Registry()) && renderedItem.calls == old(renderedItem.calls)
        case AlreadyProcessed =>
          && fault.None? && component.eclId == old(component.eclId)
          && component.multimedia.url == old(component.multimedia.url)
          && package.Registry() == old(package.Registry()) && renderedItem.calls == old(renderedItem.calls)
        case ProcessEclStub =>
          && fault.None? && component.multimedia.url == old(component.multimedia.url)
          && package.Registry() == old(package.Registry())
          && renderedItem.calls == old(renderedItem.calls) + [EclStubProcessing(component.id, targetStructureGroup)]
          && component.eclId == (if engine.eclStubId(component.id).Some? then engine.eclStubId(component.id) else old(component.eclId))
        case PublishAndSetUrl =>
          var d := Dispatch(engine, targetStructureGroup, old(package.Registry()), component.id);
          && component.eclId == old(component.eclId)
          && package.Registry() == d.registry
          && renderedItem.calls == old(renderedItem.calls) + d.published
          && (d.result.Success? ==> fault.None? && component.multimedia.url == d.result.value)
          && (d.result.Failure? ==> fault == Some(d.result.error) && component.multimedia.url == old(component.multimedia.url))
    {
      var multimedia := component.multimedia;
      if multimedia == null {
        // logged: not a multimedia component
        return None;
      }
      if multimedia.mimeType == EclMimeType && eclEnabled && component.eclId.None? {
        var ecl := new EclProcessor(engine, renderedItem, targetStructureGroup);
        ecl.ProcessEclStubComponent(component);
        fault := None;
      } else if component.eclId.Some? {
        // logged: the ECL stub has already been processed
        fault := None;
      } else {
        var url := PublishMultimediaComponent(component.id);
        match url
        case Success(path) =>
          multimedia.url := path;
          fault := None;
        case Failure(f) =>
          fault := Some(f);
      }
    }

    /** Resolves one selected link: an ECL item through the ECL library, any
        other binary through PublishMultimediaComponent with the component's
        id, and writes the URL into src (img) or href. */
    method ProcessRichTextXlink(element: Element, eclEnabled: bool) returns (result: Result<Element, Fault>)
      modifies package, renderedItem
      ensures Extends(old(package.Registry()), package.Registry())
      ensures Selected(element) ==>
        var x := ResolveLink(engine, eclEnabled, targetStructureGroup, old(package.Registry()), element);
        package.Registry() == x.registry && renderedItem.calls == old(renderedItem.calls) + x.published && result == x.result
      ensures Selected(element) && result.Success? ==>
        Rewritten(engine, eclEnabled, package.Registry(), element, result.value)
      ensures match ClassifyLink(engine, eclEnabled, element)
        case NotBinaryLink =>
          && result == Success(element)
          && package.Registry() == old(package.Registry()) && renderedItem.calls == old(renderedItem.calls)
        case EclLink(href) =>
          && result == Success(WithUrl(element, engine.eclLinkUrl(href)))
          && package.Registry() == old(package.Registry())
          && renderedItem.calls == old(renderedItem.calls) + [EclLinkProcessing(href, targetStructureGroup)]
        case BinaryLink(id) =>
          var d := Dispatch(engine, targetStructureGroup, old(package.Registry()), id);
          && package.Registry() == d.registry
          && renderedItem.calls == old(renderedItem.calls) + d.published
          && result == (match d.result
                        case Success(url) => Success(WithUrl(element, url))
                        case Failure(f) => Failure(f))
    {
      var xlinkHref := XlinkHref(element);
      if xlinkHref == "" {
        // logged: no xlink:href
        return Success(element);
      }
      var component := ComponentAt(engine, xlinkHref);
      if component.None? || component.value.binaryContent.None? {
        // not a link to a multimedia component
        return Success(element);
      }
      var url: string;
      if component.value.binaryContent.value.mimeType == EclMimeType && eclEnabled {
        var ecl := new EclProcessor(engine, renderedItem, targetStructureGroup);
        url := ecl.ProcessEclXlink(element);
      } else {
        var published := PublishMultimediaComponent(component.value.id);
        DispatchProperties(engine, targetStructureGroup, old(package.Registry()), component.value.id,
                           Dispatch(engine, targetStructureGroup, old(package.Registry()), component.value.id));
        if published.Failure? {
          return Failure(published.error);
        }
        url := published.value;
      }
      result := Success(WithUrl(element, url));
    }

    /** The reference path of a published item: its published path. */
    function GetReferencePath(item: Item, uri: string): (r: Result<string, Fault>)
      reads item
      ensures r.Success? <==> PublishedPathProperty in item.properties
      ensures r.Success? ==> r.value == item.properties[PublishedPathProperty]
    {
      ReferencePath(item.PublishedPath(), uri)
    }

    /** Publishes the item's component as Placement decides and stores the
        binary's URL as the item's published path. */
    method PublishItem(item: Item) returns (fault: Option<Fault>)
      requires TcmUriProperty in item.properties
      modifies item, renderedItem
      ensures match Placement(engine, targetStructureGroup, old(item.properties[TcmUriProperty]))
        case Failure(f) =>
          fault == Some(f) && item.properties == old(item.properties) && renderedItem.calls == old(renderedItem.calls)
        case Success(call) =>
          && fault.None?
          && renderedItem.calls == old(renderedItem.calls) + [call]
          && item.properties == old(item.properties)[PublishedPathProperty := engine.binaryUrl(call)]
    {
      var uri := item.properties[TcmUriProperty];
      var publishedPath: string;
      if targetStructureGroup.None? {
        // no structure group: default placement, deliberately without a variant id
        var mmComp := ComponentAt(engine, uri);
        if mmComp.None? {
          return Some(NotAComponent(uri));
        }
        publishedPath := renderedItem.AddBinary(engine, DefaultPlacement(mmComp.value.id));
      } else {
        var mmComp := ComponentAt(engine, uri);
        if mmComp.None? {
          return Some(NotAComponent(uri));
        }
        var comp := mmComp.value;
        if comp.binaryContent.None? {
          return Some(NoBinaryContent(comp.id));
        }
        var fileName := FileNames.ConstructFileName(comp.binaryContent.value.filename, comp.id, currentTemplate);
        var targetSG := targetStructureGroup.value;
        if !(targetSG in engine.objects && engine.objects[targetSG].StructureGroupObject?) {
          return Some(NotAStructureGroup(targetSG));
        }
        // the item's stream (logged when null, then used anyway) carries the bytes, which are not modelled
        publishedPath := renderedItem.AddBinary(engine,
          ExplicitPlacement(fileName, targetSG, currentTemplate, comp.id, comp.binaryContent.value.mimeType));
      }
      item.SetPublishedPath(publishedPath);
      fault := None;
    }
  }
}
