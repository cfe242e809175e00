/** `CellFileImageLoaderFactory.createImageLoader`: the image type tag of a
    source's metadata chooses which image loader is built; the other
    metadata values are handed on unchanged. */
module CellFileImageLoaderFactories {

  /** The three image loaders the factory can build. */
  datatype LoaderKind = UnsignedByteLoader | UnsignedShortLoader | FloatLoader

  /** A constructed loader, as the arguments of its constructor call. */
  datatype LoaderSpec = LoaderSpec(
    kind: LoaderKind,
    urlFormat: string,
    imageDimensions: seq<seq<int>>,
    cellDimensions: seq<seq<int>>,
    downsampleFactors: seq<seq<int>>)

  /** The switch on the image type: "GRAY8" and "GRAY16" name their loaders,
      "GRAY32" and every other tag fall through to the float loader, so no
      tag is rejected. Every branch passes the four metadata values in the
      same order. */
  function CreateImageLoader(imageType: string, urlFormat: string, imageDimensions: seq<seq<int>>,
                             cellDimensions: seq<seq<int>>, downsampleFactors: seq<seq<int>>): (r: LoaderSpec)
    ensures r.kind == UnsignedByteLoader <==> imageType == "GRAY8"
    ensures r.kind == UnsignedShortLoader <==> imageType == "GRAY16"
    ensures r.kind == FloatLoader <==> imageType != "GRAY8" && imageType != "GRAY16"
    ensures r.urlFormat == urlFormat && r.imageDimensions == imageDimensions
    ensures r.cellDimensions == cellDimensions && r.downsampleFactors == downsampleFactors
  {
    var kind :=
      if imageType == "GRAY8" then UnsignedByteLoader
      else if imageType == "GRAY16" then UnsignedShortLoader
      else FloatLoader;
    LoaderSpec(kind, urlFormat, imageDimensions, cellDimensions, downsampleFactors)
  }

  /** The type tag that names each loader in the metadata. */
  function TypeTag(kind: LoaderKind): string
  {
    match kind
    case UnsignedByteLoader => "GRAY8"
    case UnsignedShortLoader => "GRAY16"
    case FloatLoader => "GRAY32"
  }

  /** Every loader is reached from its own tag. */
  lemma TagSelectsLoader(kind: LoaderKind, urlFormat: string, imageDimensions: seq<seq<int>>,
                         cellDimensions: seq<seq<int>>, downsampleFactors: seq<seq<int>>)
    ensures CreateImageLoader(TypeTag(kind), urlFormat, imageDimensions, cellDimensions, downsampleFactors).kind == kind
  {
  }

  /** The chosen loader depends on the tag alone, and two tags choose the
      same loader exactly when neither is one of the named pair or both are
      the same one. */
  lemma SameLoaderIffSameClass(t1: string, t2: string, u: string, d: seq<seq<int>>, c: seq<seq<int>>, f: seq<seq<int>>)
    ensures CreateImageLoader(t1, u, d, c, f).kind == CreateImageLoader(t2, u, d, c, f).kind <==>
      (t1 == t2 || (t1 != "GRAY8" && t1 != "GRAY16" && t2 != "GRAY8" && t2 != "GRAY16"))
  {
  }
}
