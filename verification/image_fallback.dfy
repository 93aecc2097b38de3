/** The image fallback resolver: a project image whose `src` is not an
    absolute `http` URL is pointed at once at a placeholder chosen by its
    file name, and any image that fails to load is pointed at the same
    placeholder. */
module ImageFallback {
  import opened Strings

  /** Every placeholder is an Unsplash photo URL at 800x600, cropped;
      only the photo id differs. */
  function UnsplashUrl(photo: string): (url: string)
    ensures StartsWith(url, "https://")
  {
    var url := "https://images.unsplash.com/photo-" + photo + "?w=800&h=600&fit=crop";
    assert url[..8] == "https://";
    url
  }

  /** The photo used for file names without a placeholder. */
  const DefaultPhoto: string := "1498050108023-c5249f4df085"

  const DefaultPlaceholder: string := UnsplashUrl(DefaultPhoto)

  /** The `placeholders` object: file name to photo id. */
  const PlaceholderPhotos: map<string, string> := map[
    "weather-app.jpg" := "1592210454359-9043f067919b",
    "news-app.jpg" := "1504711434969-e33886168f5c",
    "backend.jpg" := "1558494949-ef010cbdcc31",
    "ecommerce-testing.jpg" := "1557821552-17105176677c",
    "chatbot-testing.jpg" := "1531746790731-6c087fecd65a",
    "logistics-testing.jpg" := "1586528116311-ad8dd3c8310d"
  ]

  /** `src.split('/').pop()`: the longest suffix of `src` without a `/`,
      which is all of `src` when it has no `/` and "" when it ends in one. */
  function Filename(src: string): (r: string)
    ensures '/' !in r
    ensures |r| <= |src| && r == src[|src| - |r|..]
    ensures |r| < |src| ==> src[|src| - |r| - 1] == '/'
    decreases |src|
  {
    if |src| == 0 then ""
    else if src[|src| - 1] == '/' then ""
    else
      var init := src[..|src| - 1];
      var r := Filename(init) + [src[|src| - 1]];
      assert src == init + [src[|src| - 1]];
      r
  }

  /** A path ending in a file name yields that file name. */
  lemma {:induction false} FilenameOfPath(dir: string, name: string)
    requires '/' !in name
    ensures Filename(dir + "/" + name) == name
    decreases |name|
  {
    var src := dir + "/" + name;
    if name == [] {
      assert src[|src| - 1] == '/';
    } else {
      var shorter := name[..|name| - 1];
      assert src[..|src| - 1] == dir + "/" + shorter;
      assert '/' !in shorter by {
        forall k | 0 <= k < |shorter| ensures shorter[k] != '/' { assert shorter[k] == name[k]; }
      }
      FilenameOfPath(dir, shorter);
      assert name == shorter + [name[|name| - 1]];
    }
  }

  // ---------------------------------------------------------------------
  // The placeholder lookup
  // ---------------------------------------------------------------------

  /** The property names every plain JavaScript object inherits from
      `Object.prototype`. */
  const PrototypeMembers: set<string> := {
    "constructor", "hasOwnProperty", "isPrototypeOf", "propertyIsEnumerable",
    "toLocaleString", "toString", "valueOf", "__proto__",
    "__defineGetter__", "__defineSetter__", "__lookupGetter__", "__lookupSetter__"
  }

  /** What `placeholders[name]` evaluates to on the object literal: an own
      URL, an inherited function or object (always truthy), or undefined. */
  datatype Property = OwnUrl(url: string) | Inherited(key: string) | Undefined

  function PlaceholderProperty(name: string): (p: Property)
    ensures p.OwnUrl? <==> name in PlaceholderPhotos
    ensures p.Inherited? <==> name !in PlaceholderPhotos && name in PrototypeMembers
  {
    if name in PlaceholderPhotos then OwnUrl(UnsplashUrl(PlaceholderPhotos[name]))
    else if name in PrototypeMembers then Inherited(name)
    else Undefined
  }

  /** The value assigned to `img.src`: a URL, or the engine's string form of
      an inherited member (such as "function toString() { [native code] }"),
      whose exact text is not modelled. */
  datatype SrcValue = Url(url: string) | BuiltinText(key: string)

  /** `placeholders[name] || default`, as written: every own value and
      every inherited member is truthy. */
  function ResolveAsWritten(name: string): (v: SrcValue)
    ensures v.Url? ==> StartsWith(v.url, "https://")
    ensures v.BuiltinText? <==> name in PrototypeMembers
    ensures name in PrototypeMembers ==> v == BuiltinText(name)
  {
    PrototypeNamesUnmapped();
    match PlaceholderProperty(name)
    case OwnUrl(u) => Url(u)
    case Inherited(k) => BuiltinText(k)
    case Undefined => Url(DefaultPlaceholder)
  }

  /** An image file named like an inherited member gets no placeholder URL
      at all: its `src` becomes the text of a built-in function. */
  lemma AsWrittenInheritedName()
    ensures ResolveAsWritten("toString") == BuiltinText("toString")
    ensures !ResolveAsWritten("toString").Url?
  {
    assert "toString" !in PlaceholderPhotos;
  }

  /** The lookup as intended: the mapped placeholder for a known file
      name, the default for every other name. */
  function Resolve(name: string): (url: string)
    ensures StartsWith(url, "https://")
    ensures name in PlaceholderPhotos ==> url == UnsplashUrl(PlaceholderPhotos[name])
    ensures name !in PlaceholderPhotos ==> url == DefaultPlaceholder
  {
    UnsplashUrl(if name in PlaceholderPhotos then PlaceholderPhotos[name] else DefaultPhoto)
  }

  /** The corrected lookup agrees with the code on every name that is not
      an inherited member, and gives the default on those. */
  lemma ResolveMatchesAsWritten(name: string)
    ensures name !in PrototypeMembers ==> ResolveAsWritten(name) == Url(Resolve(name))
    ensures name in PrototypeMembers ==> Resolve(name) == DefaultPlaceholder
  {
    PrototypeNamesUnmapped();
  }

  /** No file name of the `placeholders` object is an inherited member. */
  lemma PrototypeNamesUnmapped()
    ensures forall k :: k in PrototypeMembers ==> k !in PlaceholderPhotos
  {
  }

  // ---------------------------------------------------------------------
  // One project image
  // ---------------------------------------------------------------------

  /** A project image: its current `src`, and the file name its error
      listener captured from the original `src`. */
  datatype Image = Image(src: string, filename: string)

  /** The per-image body of `initImageFallbacks`: capture the file name,
      and replace a `src` that does not start with "http" right away. */
  function InitImage(src: string): (img: Image)
    ensures img.filename == Filename(src)
    ensures StartsWith(src, "http") ==> img.src == src
    ensures !StartsWith(src, "http") ==> img.src == Resolve(Filename(src))
  {
    var name := Filename(src);
    Image(if StartsWith(src, "http") then src else Resolve(name), name)
  }

  /** The image's `error` listener: the placeholder for the captured name. */
  function OnLoadError(img: Image): (r: Image)
    ensures r.filename == img.filename
    ensures r.src == Resolve(img.filename)
  {
    img.(src := Resolve(img.filename))
  }

  /** The value the initial pass assigns as written, with the code's own
      `placeholders[filename] || default`: it differs from `InitImage` only
      for a local `src` whose file name is an inherited member. */
  function InitSrcAsWritten(src: string): (v: SrcValue)
    ensures StartsWith(src, "http") ==> v == Url(InitImage(src).src)
    ensures !StartsWith(src, "http") && Filename(src) !in PrototypeMembers ==>
      v == Url(InitImage(src).src)
    ensures !StartsWith(src, "http") && Filename(src) in PrototypeMembers ==>
      v == BuiltinText(Filename(src))
  {
    var name := Filename(src);
    ResolveMatchesAsWritten(name);
    if StartsWith(src, "http") then Url(src) else ResolveAsWritten(name)
  }

  /** The value the `error` listener assigns as written: it differs from
      `OnLoadError` only when the captured name is an inherited member. */
  function ErrorSrcAsWritten(img: Image): (v: SrcValue)
    ensures img.filename !in PrototypeMembers ==> v == Url(OnLoadError(img).src)
    ensures img.filename in PrototypeMembers ==> v == BuiltinText(img.filename)
  {
    ResolveMatchesAsWritten(img.filename);
    ResolveAsWritten(img.filename)
  }

  /** After initialisation every image points at an absolute http(s) URL. */
  lemma InitLeavesHttpSrc(src: string)
    ensures StartsWith(InitImage(src).src, "http")
  {
    if !StartsWith(src, "http") {
      HttpsIsHttp(InitImage(src).src);
    }
  }

  lemma HttpsIsHttp(u: string)
    requires StartsWith(u, "https://")
    ensures StartsWith(u, "http")
  {
    assert u[..4] == u[..8][..4];
  }

  /** A local image already shows its fallback, so a load error of the
      placeholder changes nothing; and repeated errors are no-ops. */
  lemma ErrorAfterLocalInitIsStable(src: string)
    requires !StartsWith(src, "http")
    ensures OnLoadError(InitImage(src)) == InitImage(src)
    ensures OnLoadError(OnLoadError(InitImage(src))) == OnLoadError(InitImage(src))
  {
  }

  /** A remote image keeps its `src` until it fails, and then gets the
      placeholder for the name taken from its original `src`. */
  lemma RemoteImageFallsBackOnError(src: string)
    requires StartsWith(src, "http")
    ensures InitImage(src).src == src
    ensures OnLoadError(InitImage(src)).src == Resolve(Filename(src))
  {
  }

  /** A bare local file name such as `weather-app.jpg` resolves to its
      mapped placeholder before any error occurs. */
  lemma MappedLocalName(src: string)
    requires '/' !in src && src in PlaceholderPhotos && !StartsWith(src, "http")
    ensures InitImage(src).src == UnsplashUrl(PlaceholderPhotos[src])
  {
    FilenameBare(src);
  }

  /** A local path whose file name has no entry resolves to the default
      placeholder, whatever its directory. */
  lemma UnmappedLocalPath(dir: string, name: string)
    requires '/' !in name && name !in PlaceholderPhotos
    requires !StartsWith(dir + "/" + name, "http")
    ensures InitImage(dir + "/" + name).src == DefaultPlaceholder
  {
    FilenameOfPath(dir, name);
  }

  /** A name without `/` is its own file name. */
  lemma {:induction false} FilenameBare(name: string)
    requires '/' !in name
    ensures Filename(name) == name
    decreases |name|
  {
    if name != [] {
      var shorter := name[..|name| - 1];
      assert '/' !in shorter by {
        forall k | 0 <= k < |shorter| ensures shorter[k] != '/' { assert shorter[k] == name[k]; }
      }
      FilenameBare(shorter);
      assert name == shorter + [name[|name| - 1]];
    }
  }
}
