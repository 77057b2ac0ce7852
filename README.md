# BinaryPublisher, modelled in Dafny

DD4T's `BinaryPublisher` runs inside a Tridion template during one rendering
pass. It publishes the binary content of multimedia components through the
rendered item. It remembers, in the templating package, every component it has
already handled: the item goes in under the name `"PublishMultimedia_" + uri`.
It also rewrites rich-text XLinks so that they point at the published URLs.
This project models that class and proves what it promises:

- `FileNames`: the file name of a binary published into a structure group.
  The name is the base name of the binary's file name. The regular expression
  `^(.*)\.([^\.]+)$` inserts `_<component id>_<template id>` before the
  extension, with every colon removed from both ids.
- `Host`: what the publisher sees of Tridion.
  - The engine's read-only answers (object lookup, URI validity, the URL a
    published binary gets, what the ECL library returns) form the `Engine`
    value.
  - The objects the publisher changes are classes: the package and its items,
    the rendered item (its log records every publication), DD4T's multimedia
    component, and the ECL processor.
- `Publishing`: the specification functions.
  - `ResolveTarget`: which structure group the publisher targets.
  - `Placement`: how one binary is placed.
  - `Dispatch`: what one `PublishMultimediaComponent(uri)` call does to the
    registry and to the publication log. The registry is the published path
    of each item the package holds under a name.
  - `RunAll`: a pass of such calls.
  - `RichTextPass`: the pass `PublishBinariesInRichTextField` makes over a
    fragment, one `ResolveLink` per element in document order.
  - `FieldDecision`: the decision table of the structured overload.
  - `ClassifyLink`, `WithUrl` and `Rewritten`: how a rich-text element is
    rewritten.
- `BinaryPublishing.BinaryPublisher`: the class itself. Each method is proved
  against those functions.

Properties proved:

- Deduplication per pass: any number of calls with the same URI string
  publish at most once. Every successful call returns the one path the
  registry holds for that URI.
- The registry only grows.
- A rich-text rewrite stays valid as the registry grows.
- An element is changed only in its `src` (for `img`) or `href` attribute.
- An explicit target argument overrides the package parameter.
- An invalid target falls back to default placement.
- Constructed file names never contain a colon.
- The directory part of a binary's file name plays no part in the published
  name.
- For a file name with an extension, two variants, or two components, whose
  ids differ once colons are removed never collide on a file name (`tcm:1-2`
  and `tcm1-2` do give the same name).
- For a file name without an extension, the expression does not match. The
  ids are not inserted, so every variant of every component gets the same
  name (`photo` stays `photo`).
- A rich-text pass logs at most one publication per selected link. It
  publishes each binary at most once, however often it is linked. It
  registers only the item names of the binaries it links to.

Two consequences of the code that are easy to miss:

- A target argument that is not a valid TCM URI does not stop the publisher.
  The constructor (`BinaryPublisher.cs:45-48`) returns early and leaves the
  target null. Every later publication then takes the host-default
  placement. `InvalidTargetPublishesByDefault` states this.
- Only the colons are removed from the ids (`BinaryPublisher.cs:250`), so
  `tcm:1-42` becomes `tcm1-42`. `ConstructFileNameExample` states this.

## Model

| member | source | states |
|---|---|---|
| FileNames.BaseName | source/DD4T.Templates.Base/Utils/BinaryPublisher.cs:248 | the result is a suffix of the path with no separator in it, and the path has a separator just before that suffix whenever the suffix is shorter than the path |
| FileNames.FileNameOf | source/DD4T.Templates.Base/Utils/BinaryPublisher.cs:245-249 | the name the expression is applied to holds no path separator |
| FileNames.RemoveColons | source/DD4T.Templates.Base/Utils/BinaryPublisher.cs:250 | the result is no longer than the id and contains no ':' |
| FileNames.RemoveColonsKeepsPlain | source/DD4T.Templates.Base/Utils/BinaryPublisher.cs:250 | an id without colons is left unchanged |
| FileNames.RemoveColonsAppend | source/DD4T.Templates.Base/Utils/BinaryPublisher.cs:250 | colon removal distributes over concatenation |
| FileNames.SplitExtension | source/DD4T.Templates.Base/Utils/BinaryPublisher.cs:244 | the expression matches iff the name has a last dot that is not its last character; the groups are the text before that dot and the non-empty, dot-free text after it |
| FileNames.NoExtension | source/DD4T.Templates.Base/Utils/BinaryPublisher.cs:244 | a name without a dot, or whose last dot ends it, is not matched |
| FileNames.SplitIsUnique | source/DD4T.Templates.Base/Utils/BinaryPublisher.cs:244 | a name splits into a stem, a dot and a dot-free extension in only one way |
| FileNames.InsertBeforeExtension | source/DD4T.Templates.Base/Utils/BinaryPublisher.cs:250 | an unmatched name is returned unchanged; a matched one grows by exactly the inserted text |
| FileNames.InsertedAtLastDot | source/DD4T.Templates.Base/Utils/BinaryPublisher.cs:244-250 | the replacement puts the inserted text immediately before the last dot and keeps both sides of the name |
| FileNames.LastDotIsUnique | source/DD4T.Templates.Base/Utils/BinaryPublisher.cs:244 | a name has at most one last dot |
| FileNames.ConstructFileName | source/DD4T.Templates.Base/Utils/BinaryPublisher.cs:242-251 | a base name without an extension is returned as it is |
| FileNames.InsertedBeforeLastDot | source/DD4T.Templates.Base/Utils/BinaryPublisher.cs:242-251 | the constructed name is the base name with `_id_variant` (colons removed) inserted before its last dot |
| FileNames.ConstructFileNameExample | source/DD4T.Templates.Base/Utils/BinaryPublisher.cs:250 | `photo.jpg` for `tcm:1-42` under template `tcm:1-99-32` becomes `photo_tcm1-42_tcm1-99-32.jpg` |
| FileNames.VariantsDoNotCollide | source/DD4T.Templates.Base/Utils/BinaryPublisher.cs:250 | for a file name with an extension, the same binary under two templates whose ids differ after colon removal gets two different names |
| FileNames.ComponentsDoNotCollide | source/DD4T.Templates.Base/Utils/BinaryPublisher.cs:250 | for a file name with an extension, two components whose ids differ after colon removal never share a name |
| FileNames.ExtensionlessNameIgnoresIds | source/DD4T.Templates.Base/Utils/BinaryPublisher.cs:244-250 | a base name without an extension is the constructed name whatever the component and template ids, so all such names coincide |
| FileNames.ExtensionlessCollisionExample | source/DD4T.Templates.Base/Utils/BinaryPublisher.cs:244-250 | `photo` for `tcm:1-1` under templates `tcm:1-2` and `tcm:1-3` is `photo` both times |
| FileNames.ConstructedNameHasNoColon | source/DD4T.Templates.Base/Utils/BinaryPublisher.cs:248-250 | no constructed name contains ':' |
| FileNames.DirectoryIsDropped | source/DD4T.Templates.Base/Utils/BinaryPublisher.cs:246-249 | prefixing the file name with a directory and a separator does not change the constructed name |
| Publishing.RegistryKey | source/DD4T.Templates.Base/Utils/BinaryPublisher.cs:77 | the item name is `PublishMultimedia_` followed by the whole URI string |
| Publishing.RegistryKeyInjective | source/DD4T.Templates.Base/Utils/BinaryPublisher.cs:77 | two URI strings share a package item name iff they are the same string |
| Publishing.TargetParameter | source/DD4T.Templates.Base/Utils/BinaryPublisher.cs:42 | the constructor's argument when given, the package parameter otherwise |
| Publishing.ResolveTarget | source/DD4T.Templates.Base/Utils/BinaryPublisher.cs:42-54 | a target is set iff a parameter is configured and it is a valid TCM URI, and then it is that URI localised to the context publication |
| Publishing.ExplicitTargetWins | source/DD4T.Templates.Base/Utils/BinaryPublisher.cs:42 | with an explicit argument, the package parameter has no influence |
| Publishing.Placement | source/DD4T.Templates.Base/Utils/BinaryPublisher.cs:200-232 | without a target: default placement of the component, no file name, no variant; with one: the constructed file name in the target group, the current template as variant, the component's MIME type; a failure exactly when the URI is not a component, or the target is set and the binary content or the structure group is missing |
| Publishing.InvalidTargetPublishesByDefault | source/DD4T.Templates.Base/Utils/BinaryPublisher.cs:45-48 | an unconfigured or invalid target leads to default placement for every binary that is published |
| Publishing.ReferencePath | source/DD4T.Templates.Base/Utils/BinaryPublisher.cs:183-186 | success iff the registered item has a published path, and then that path |
| Publishing.Dispatch | source/DD4T.Templates.Base/Utils/BinaryPublisher.cs:75-96 | no ensures of its own: this function is the definition of one `PublishMultimediaComponent(uri)` call (the registry after it, the publications, the result); its properties are stated by `DispatchProperties`, `NewItemIsPublished` and `PrePublishedItemIsNotPublished` |
| Publishing.DispatchProperties | source/DD4T.Templates.Base/Utils/BinaryPublisher.cs:75-96 | at most one publication, only for an unregistered key; the registry only grows, and only by this key; an invalid URI changes nothing; a registered key changes nothing and returns its stored path; a success is the path stored under the key; a publication returns the binary's URL |
| Publishing.NewItemIsPublished | source/DD4T.Templates.Base/Utils/BinaryPublisher.cs:80-90 | the first sighting of a valid URI whose new item has no published path publishes it as `Placement` decides: the key is registered with the binary's URL and that URL returned; or, when placement fails, the key is registered without a path and the failure returned |
| Publishing.PrePublishedItemIsNotPublished | source/DD4T.Templates.Base/Utils/BinaryPublisher.cs:82-89 | a new item that already has a published path is registered and its path returned, with no publication |
| Publishing.RepeatedAfterRegistration | source/DD4T.Templates.Base/Utils/BinaryPublisher.cs:91-95 | once the key is registered, repeated calls change nothing and all return the same result |
| Publishing.RepeatedCallsPublishOnce | source/DD4T.Templates.Base/Utils/BinaryPublisher.cs:77-95 | any number of calls with the same URI publish at most once, only if the key was not registered before, and every successful call returns the path the registry finally holds |
| Publishing.FieldDecision | source/DD4T.Templates.Base/Utils/BinaryPublisher.cs:106-127 | each of the four outcomes holds exactly under its condition: no multimedia; an unprocessed ECL stub with ECL enabled; an already stamped ECL id; otherwise publish |
| Publishing.Selected | source/DD4T.Templates.Base/Utils/BinaryPublisher.cs:66 | an element is selected iff its xlink:href starts with `tcm:` |
| Publishing.UrlAttribute | source/DD4T.Templates.Base/Utils/BinaryPublisher.cs:166 | the URL attribute has no namespace and is `src` exactly for an `img` element, `href` for any other |
| Publishing.WithUrl | source/DD4T.Templates.Base/Utils/BinaryPublisher.cs:165-169 | the URL goes to `src` for `img` and to `href` otherwise; every other attribute and the xlink:href are kept |
| Publishing.ClassifyLink | source/DD4T.Templates.Base/Utils/BinaryPublisher.cs:134-163 | a link is resolved iff its href is non-empty and names a component with binary content; through the ECL library iff ECL is enabled and the MIME type is the ECL one; otherwise by publishing that component's id |
| Publishing.RewriteTouchesOnlyUrl | source/DD4T.Templates.Base/Utils/BinaryPublisher.cs:165-169 | a rewritten element keeps its name and xlink:href, changes only if selected and linking to a binary, and only in its URL attribute |
| Publishing.RewrittenStable | source/DD4T.Templates.Base/Utils/BinaryPublisher.cs:66-70 | a rewrite made against a registry stays valid against any registry that extends it |
| Publishing.ResolveLink | source/DD4T.Templates.Base/Utils/BinaryPublisher.cs:130-172 | no ensures of its own: this function is the definition of what one element of the fragment does (unselected elements, per the filter at `:66`, are kept); its properties are stated by `ResolvedLinkIsRewritten` and `ResolvedBinaries` |
| Publishing.RichTextPass | source/DD4T.Templates.Base/Utils/BinaryPublisher.cs:59-73 | no ensures of its own: this function is the definition of the pass, `ResolveLink` on each element in document order, the first failure ending it; its properties are stated by the `Pass*` lemmas (`PassExtendsRegistry`, `PassRewritesEveryElement`, `PassWithoutLinksChangesNothing`, `PassLogsAtMostOncePerLink`, `PassRegistersOnlyLinkedKeys`, `PassPublishesEachBinaryOnce`) |
| Publishing.ResolvedLinkIsRewritten | source/DD4T.Templates.Base/Utils/BinaryPublisher.cs:130-172 | resolving one element keeps every registry entry and adds only the item name of the binary it links to; it logs at most one publication, and only for a selected element; a success is the element rewritten against the new registry |
| Publishing.PassExtendsRegistry | source/DD4T.Templates.Base/Utils/BinaryPublisher.cs:59-73 | a pass over a fragment keeps every registry entry, and a successful pass returns as many elements as it was given |
| Publishing.PassRewritesEveryElement | source/DD4T.Templates.Base/Utils/BinaryPublisher.cs:66-70 | after a successful pass every element is `Rewritten` against the registry the whole pass ends with |
| Publishing.PassWithoutLinksChangesNothing | source/DD4T.Templates.Base/Utils/BinaryPublisher.cs:66-70 | a fragment with no selected element comes back as it is, with nothing published and the registry unchanged |
| Publishing.PassLogsAtMostOncePerLink | source/DD4T.Templates.Base/Utils/BinaryPublisher.cs:66-70 | the publications a pass logs are at most as many as the selected elements |
| Publishing.PassRegistersOnlyLinkedKeys | source/DD4T.Templates.Base/Utils/BinaryPublisher.cs:59-96 | a pass adds to the registry only the item names of the binaries its selected links point to |
| Publishing.ResolvedBinaries | source/DD4T.Templates.Base/Utils/BinaryPublisher.cs:77-95 | one element publishes a binary only for a linked item name the registry lacked, and the registry then holds it |
| Publishing.PassPublishesEachBinaryOnce | source/DD4T.Templates.Base/Utils/BinaryPublisher.cs:59-96 | the binaries a pass publishes are at most as many as the distinct linked item names the registry lacked before it, however often each is linked |
| Host.XlinkHref | source/DD4T.Templates.Base/Utils/BinaryPublisher.cs:134 | a non-empty href comes from an xlink:href attribute |
| Host.Item.constructor | source/DD4T.Templates.Base/Utils/BinaryPublisher.cs:82 | `CreateMultimediaItem(uri)`: the item carries the URI, and the published-path property exactly when the host gives the component one, with that path |
| Host.Item.PublishedPath | source/DD4T.Templates.Base/Utils/BinaryPublisher.cs:85 | present iff the item has the published-path property, with its value |
| Host.Item.SetPublishedPath | source/DD4T.Templates.Base/Utils/BinaryPublisher.cs:234 | the published-path property is set to the path and every other property is kept |
| Host.Package.GetValue | source/DD4T.Templates.Base/Utils/BinaryPublisher.cs:42 | the parameter's value, or null when the package lacks it |
| Host.Package.GetByName | source/DD4T.Templates.Base/Utils/BinaryPublisher.cs:79 | null iff no item has the name, otherwise that item |
| Host.Package.PushItem | source/DD4T.Templates.Base/Utils/BinaryPublisher.cs:83 | the item is stored under the name and the registry gains its published path |
| Host.RenderedItem.AddBinary | source/DD4T.Templates.Base/Utils/BinaryPublisher.cs:228-229 | the publication is appended to the log and the binary's URL is returned |
| Host.EclProcessor.ProcessEclStubComponent | source/DD4T.Templates.Base/Utils/BinaryPublisher.cs:115-118 | the processing is logged with the publisher's target, and the component gets the ECL id the library gives, if any |
| Host.EclProcessor.ProcessEclXlink | source/DD4T.Templates.Base/Utils/BinaryPublisher.cs:155-158 | the processing is logged with the publisher's target, and the URL for the link's href is returned |
| BinaryPublishing.BinaryPublisher.constructor | source/DD4T.Templates.Base/Utils/BinaryPublisher.cs:32-55 | the current template is the resolved item's template, and the target is `ResolveTarget` of the argument and the package parameter |
| BinaryPublishing.BinaryPublisher.PublishBinariesInRichTextField | source/DD4T.Templates.Base/Utils/BinaryPublisher.cs:59-73 | the new registry, the publications and the result are those of `RichTextPass` over the fragment; the registry only grows; on success every element is `Rewritten` against the final registry and the fragment keeps its length; a fragment with no selected link comes back unchanged, with nothing published |
| BinaryPublishing.BinaryPublisher.RewriteLinks | source/DD4T.Templates.Base/Utils/BinaryPublisher.cs:66-70 | the loop over the selected elements in document order: the new registry, the publications and the result are those of `RichTextPass` |
| BinaryPublishing.BinaryPublisher.RewriteNext | source/DD4T.Templates.Base/Utils/BinaryPublisher.cs:66-69 | one iteration: the element is resolved as `ResolveLink` says, and the rest of the pass follows from the new registry |
| BinaryPublishing.BinaryPublisher.ResolveElement | source/DD4T.Templates.Base/Utils/BinaryPublisher.cs:66-69 | a selected element goes through `ProcessRichTextXlink`, any other is kept; the state and result are those of `ResolveLink` |
| BinaryPublishing.BinaryPublisher.PublishMultimediaComponent | source/DD4T.Templates.Base/Utils/BinaryPublisher.cs:75-96 | the new registry, the publications made and the result are those of `Dispatch` |
| BinaryPublishing.BinaryPublisher.PublishNewItem | source/DD4T.Templates.Base/Utils/BinaryPublisher.cs:80-90 | for an unregistered valid URI: the new registry, the publications and the result are those of `Dispatch` |
| BinaryPublishing.BinaryPublisher.PublishDynamicComponent | source/DD4T.Templates.Base/Utils/BinaryPublisher.cs:104-128 | by `FieldDecision`: no change at all; or ECL processing logged and the stub's ECL id stamped, with nothing published; or the component is published as `Dispatch` says and its multimedia URL is set to the result; an already processed component keeps its multimedia URL |
| BinaryPublishing.BinaryPublisher.ProcessRichTextXlink | source/DD4T.Templates.Base/Utils/BinaryPublisher.cs:130-172 | for a selected element, the state and result are those of `ResolveLink`; by `ClassifyLink`: the element unchanged; or the ECL URL written, with the processing logged; or the component published as `Dispatch` says and its URL written, a failure propagating |
| BinaryPublishing.BinaryPublisher.GetReferencePath | source/DD4T.Templates.Base/Utils/BinaryPublisher.cs:183-186 | success iff the item has a published path, and then that path |
| BinaryPublishing.BinaryPublisher.PublishItem | source/DD4T.Templates.Base/Utils/BinaryPublisher.cs:188-240 | as `Placement` decides: a failure leaves the item and the log unchanged; otherwise exactly that publication is logged and the item's published path becomes the binary's URL |

## Left out

- Streams: the item's content stream carries the bytes of the binary. The model does not represent the bytes. A null stream is logged and then used anyway (`:219-228`); this is not modelled.
- Logging: log messages are left out. Only the log of publications on the rendered item is modelled.
- The applied-template URI that `PublishItem` reads (`:192-196`) is never used afterwards, so it is left out.
- XML: parsing and serialising the rich text are left out, and so is the `tmproot` wrapper. A fragment is the sequence of its elements in document order, each with its name and attributes. Text and nesting are not modelled.
- The ECL library: it is opaque. What it returns comes from the `Engine` value, and its work is one entry in the publication log. `Dispose` is left out.
- `Path.GetFileName` throws on characters that are invalid in a path. That exception is not modelled; separators follow the .NET Framework (`\`, `/`, `:`).
- A null file name is not modelled. Strings are never null, and an empty file name goes through the expression unchanged.
- Regex corner cases: the model does not treat a newline in a file name specially (`.` does not match one), nor `$` matching before a final newline.
- The two-argument constructor (`:27-30`) is the three-argument one with a null target, that is `None`.
- `BuildProperties`: only `ECLEnabled` is used, so it is modelled as a boolean.
- Host answers: the model treats them as deterministic functions of their arguments. These are object lookup, URI localisation, binary URLs, `CreateMultimediaItem` and the ECL library.
- `new TcmUri(uri)` and `TcmUri.IsValid` accept the same strings.
- Exceptions: the host's exceptions are modelled as `Failure` results that propagate to the caller unchanged. These are an invalid URI, a failed cast, a missing binary content and a missing published path.
- BinaryPublishing.BinaryPublisher.PublishNewItem: publishes the new item before pushing it into the package, which is the reverse of `:82-89`. Neither step reads what the other writes, so the final state, the publications and the result are the same. Only the intermediate state differs, and nothing observes it.
- BinaryPublishing.BinaryPublisher.PublishBinariesInRichTextField: when a link fails, the source throws and returns no fragment. The model returns the failure, and it keeps the registry and log entries made before the failure, as `RichTextPass` states.
- Subclass overrides of the virtual methods (`GetReferencePath`, `PublishItem`, `PublishMultimediaComponent`) are not modelled; the model is this class's own behaviour.
