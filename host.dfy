/**
  The Tridion host as the publisher sees it. What the host only answers (object
  lookup, URI validity, the URL a published binary gets, what the ECL library
  returns) is a read-only Engine value; what the host lets the publisher change
  is a class: the templating package (its named items), an item's property
  dictionary, and the rendered item, whose log records every publication.
*/
module Host {
  import opened Wrappers

  /** A multimedia component's binary content: its file name and MIME type. */
  datatype BinaryContent = BinaryContent(filename: string, mimeType: string)

  /** A CMS component; only multimedia components carry binary content. */
  datatype Component = Component(id: string, binaryContent: Option<BinaryContent>)

  /** What engine.GetObject can return. */
  datatype HostObject =
    | ComponentObject(component: Component)
    | StructureGroupObject(uri: string)
    | OtherObject

  /** One observable publication, in the order the host receives them. */
  datatype PublishCall =
      /** RenderedItem.AddBinary(component): host-default placement, no file name, no variant. */
    | DefaultPlacement(componentId: string)
      /** RenderedItem.AddBinary(stream, fileName, structureGroup, variantId, component, mimeType). */
    | ExplicitPlacement(fileName: string, structureGroup: string, variantId: string, componentId: string, mimeType: string)
      /** EclProcessor.ProcessEclStubComponent, with the processor's target structure group. */
    | EclStubProcessing(componentId: string, target: Option<string>)
      /** EclProcessor.ProcessEclXlink, with the processor's target structure group. */
    | EclLinkProcessing(href: string, target: Option<string>)

  /** The read-only side of the templating engine and its publishing context. */
  datatype Engine = Engine(
    /** TcmUri.IsValid, and the URIs `new TcmUri(...)` accepts. */
    validUris: set<string>,
    /** engine.GetObject; a URI that is not a key resolves to nothing. */
    objects: map<string, HostObject>,
    /** PublishingContext.ResolvedItem.Template.Id: the current template. */
    templateId: string,
    /** TridionUtils.GetLocalUri against the context publication. */
    localUri: string -> string,
    /** The Url of the Binary that RenderedItem.AddBinary returns for a call. */
    binaryUrl: PublishCall -> string,
    /** The published path that package.CreateMultimediaItem may already
        have put on a new item for a URI. */
    createdPath: string -> Option<string>,
    /** The URL EclProcessor.ProcessEclXlink resolves a link's href to. */
    eclLinkUrl: string -> string,
    /** The ECL id EclProcessor.ProcessEclStubComponent stamps on a component, if any. */
    eclStubId: string -> Option<string>
  )

  /** The keys of Item.Properties the publisher uses. */
  datatype PropertyName = TcmUriProperty | PublishedPathProperty

  /** A templating package item; its property dictionary is updated in place. */
  class Item {
    var properties: map<PropertyName, string>

    /** package.CreateMultimediaItem(uri): an item for the component at `uri`,
        possibly already carrying a published path. */
    constructor (uri: string, publishedPath: Option<string>)
      ensures TcmUriProperty in properties && properties[TcmUriProperty] == uri
      ensures PublishedPathProperty in properties <==> publishedPath.Some?
      ensures publishedPath.Some? ==> properties[PublishedPathProperty] == publishedPath.value
    {
      properties := if publishedPath.Some?
        then map[TcmUriProperty := uri, PublishedPathProperty := publishedPath.value]
        else map[TcmUriProperty := uri];
    }

    /** The item's published path, if it has one. */
    function PublishedPath(): (r: Option<string>)
      reads this
      ensures r.Some? <==> PublishedPathProperty in properties
      ensures r.Some? ==> r.value == properties[PublishedPathProperty]
    {
      if PublishedPathProperty in properties then Some(properties[PublishedPathProperty]) else None
    }

    method SetPublishedPath(path: string)
      modifies this
      ensures properties == old(properties)[PublishedPathProperty := path]
    {
      properties := properties[PublishedPathProperty := path];
    }
  }

  /** The templating package: named items and the template's parameter values. */
  class Package {
    var items: map<string, Item>
    /** package.GetValue; a name that is not a key reads as null. */
    const values: map<string, string>

    constructor (values: map<string, string>)
      ensures items == map[] && this.values == values
    {
      items := map[];
      this.values := values;
    }

    /** The published path of the item under each name: the state the
        publisher's deduplication works on. */
    function Registry(): (r: map<string, Option<string>>)
      reads this, items.Values
    {
      map k | k in items :: items[k].PublishedPath()
    }

    function GetValue(name: string): (value: Option<string>)
      ensures value.Some? <==> name in values
      ensures value.Some? ==> value.value == values[name]
    {
      if name in values then Some(values[name]) else None
    }

    function GetByName(name: string): (item: Item?)
      reads this
      ensures item == null <==> name !in items
      ensures item != null ==> item == items[name]
    {
      if name in items then items[name] else null
    }

    method PushItem(name: string, item: Item)
      modifies this
      ensures items == old(items)[name := item]
      ensures Registry() == old(Registry())[name := item.PublishedPath()]
    {
      items := items[name := item];
    }
  }

  /** The item being rendered; every publication it receives is logged. */
  class RenderedItem {
    var calls: seq<PublishCall>

    constructor ()
      ensures calls == []
    {
      calls := [];
    }

    /** RenderedItem.AddBinary (either overload): the call is logged and the
        URL of the binary the host creates for it is returned. */
    method AddBinary(engine: Engine, call: PublishCall) returns (url: string)
      modifies this
      ensures calls == old(calls) + [call]
      ensures url == engine.binaryUrl(call)
    {
      calls := calls + [call];
      url := engine.binaryUrl(call);
    }

    /** What the ECL processor publishes through the rendered item, as one log entry. */
    method Record(call: PublishCall)
      modifies this
      ensures calls == old(calls) + [call]
    {
      calls := calls + [call];
    }
  }

  /** An attribute's qualified name; SetAttribute(name, value) uses the empty namespace. */
  datatype AttrName = AttrName(namespaceUri: string, localName: string)

  const XlinkNamespace := "http://www.w3.org/1999/xlink"

  /** An element of a rich-text fragment, in document order; text, children and
      serialisation are not modelled. */
  datatype Element = Element(localName: string, attributes: map<AttrName, string>)

  /** GetAttribute("href", xlink namespace): the empty string when absent. */
  function XlinkHref(e: Element): (href: string)
    ensures href != "" ==> AttrName(XlinkNamespace, "href") in e.attributes
  {
    var name := AttrName(XlinkNamespace, "href");
    if name in e.attributes then e.attributes[name] else ""
  }

  /** DD4T's content model: the multimedia part of a component, whose Url is set in place. */
  class Multimedia {
    const mimeType: string
    var url: string

    constructor (mimeType: string, url: string)
      ensures this.mimeType == mimeType && this.url == url
    {
      this.mimeType := mimeType;
      this.url := url;
    }
  }

  /** DD4T's content model: a component, possibly multimedia, possibly an ECL stub. */
  class DynamicComponent {
    const id: string
    var eclId: Option<string>
    const multimedia: Multimedia?

    constructor (id: string, eclId: Option<string>, multimedia: Multimedia?)
      ensures this.id == id && this.eclId == eclId && this.multimedia == multimedia
    {
      this.id := id;
      this.eclId := eclId;
      this.multimedia := multimedia;
    }
  }

  /** The External Content Library boundary: an opaque processor scoped to
      the publisher's target structure group. */
  class EclProcessor {
    const engine: Engine
    const renderedItem: RenderedItem
    const target: Option<string>

    constructor (engine: Engine, renderedItem: RenderedItem, target: Option<string>)
      ensures this.engine == engine && this.renderedItem == renderedItem && this.target == target
    {
      this.engine := engine;
      this.renderedItem := renderedItem;
      this.target := target;
    }

    /** Processes an ECL stub component, stamping its ECL id when the library gives one. */
    method ProcessEclStubComponent(component: DynamicComponent)
      modifies renderedItem, component
      ensures renderedItem.calls == old(renderedItem.calls) + [EclStubProcessing(component.id, target)]
      ensures component.eclId == if engine.eclStubId(component.id).Some? then engine.eclStubId(component.id) else old(component.eclId)
    {
      renderedItem.Record(EclStubProcessing(component.id, target));
      if engine.eclStubId(component.id).Some? {
        component.eclId := engine.eclStubId(component.id);
      }
    }

    /** Resolves a link to an ECL item to its URL. */
    method ProcessEclXlink(element: Element) returns (url: string)
      modifies renderedItem
      ensures renderedItem.calls == old(renderedItem.calls) + [EclLinkProcessing(XlinkHref(element), target)]
      ensures url == engine.eclLinkUrl(XlinkHref(element))
    {
      renderedItem.Record(EclLinkProcessing(XlinkHref(element), target));
      url := engine.eclLinkUrl(XlinkHref(element));
    }
  }
}
