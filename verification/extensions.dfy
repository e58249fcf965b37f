/** The fixed extension tables and the case-insensitive support test and
    normaliser built on them. */
module Extensions {
  import opened Ascii

  /** A table is well formed when its keys are lower-case and every value is a
      canonical extension: itself a key that maps to itself, non-empty and
      without a dot, so that it can follow the single dot of a file name. */
  ghost predicate WellFormed(t: map<string, string>) {
    forall k :: k in t ==>
      && IsLowerCase(k)
      && t[k] in t
      && t[t[k]] == t[k]
      && t[k] != []
      && '.' !in t[k]
  }

  type Table = t: map<string, string> | WellFormed(t) witness map[]

  /** `SUPPORTED_TYPES_MAPPING` of the image pipeline. */
  const ImageTable: Table := map["jpg" := "jpg", "jpeg" := "jpg", "png" := "png"]

  /** `SUPPORTED_TYPES_MAPPING` of the video pipeline. */
  const VideoTable: Table := map["mp4" := "mp4"]

  /** `is_supported_file_extension`: the lower-cased extension is a key. */
  predicate IsSupported(t: Table, extension: string) {
    Lower(extension) in t
  }

  /** `normalize_file_extension`: the table's value for the key the extension
      spells, whatever the case of its letters. */
  function Normalize(t: Table, extension: string): (r: string)
    requires IsSupported(t, extension)
    ensures forall k :: k in t && CaseVariant(extension, k) ==> r == t[k]
    ensures r in t && t[r] == r
    ensures r != [] && '.' !in r
  {
    assert forall k :: k in t && CaseVariant(extension, k) ==> Lower(extension) == k by {
      forall k | k in t && CaseVariant(extension, k) ensures Lower(extension) == k {
        LowerOfCaseVariant(extension, k);
      }
    }
    t[Lower(extension)]
  }

  /** Support is exactly "some key of the table, with any letters capitalised". */
  lemma SupportedIffCaseVariant(t: Table, v: string)
    ensures IsSupported(t, v) <==> exists k :: k in t && CaseVariant(v, k)
  {
    if IsSupported(t, v) {
      CaseVariantOfLower(v);
    }
    if k :| k in t && CaseVariant(v, k) {
      LowerOfCaseVariant(v, k);
    }
  }

  /** Normalising twice is normalising once. */
  lemma NormalizeIdempotent(t: Table, extension: string)
    requires IsSupported(t, extension)
    ensures IsSupported(t, Normalize(t, extension))
    ensures Normalize(t, Normalize(t, extension)) == Normalize(t, extension)
  {
    var r := Normalize(t, extension);
    assert Lower(r) == r by { LowerOfCaseVariant(r, r); }
  }

  /** Normalisation ignores case: an upper-cased supported extension, and in
      particular the upper-cased canonical form, is supported and normalises
      to what the extension itself normalises to. */
  lemma NormalizeIgnoresCase(t: Table, extension: string)
    requires IsSupported(t, extension)
    ensures IsSupported(t, Upper(extension))
    ensures Normalize(t, Upper(extension)) == Normalize(t, extension)
    ensures IsSupported(t, Upper(Normalize(t, extension)))
    ensures Normalize(t, Upper(Normalize(t, extension))) == Normalize(t, extension)
  {
    var r := Normalize(t, extension);
    LowerUpper(r);
    CaseVariantOfLower(extension);
    assert CaseVariant(Upper(extension), Lower(extension));
    LowerOfCaseVariant(Upper(extension), Lower(extension));
  }

  lemma ImageSupport()
    ensures IsSupported(ImageTable, "jpg") && IsSupported(ImageTable, "JPG")
    ensures IsSupported(ImageTable, "jpeg") && IsSupported(ImageTable, "JPEG")
    ensures IsSupported(ImageTable, "png") && IsSupported(ImageTable, "PNG")
    ensures !IsSupported(ImageTable, "wav") && !IsSupported(ImageTable, "WAV")
    ensures !IsSupported(ImageTable, "mp4")
  {
    LowerOfCaseVariant("jpg", "jpg");
    LowerOfCaseVariant("JPG", "jpg");
    LowerOfCaseVariant("jpeg", "jpeg");
    LowerOfCaseVariant("JPEG", "jpeg");
    LowerOfCaseVariant("png", "png");
    LowerOfCaseVariant("PNG", "png");
    LowerOfCaseVariant("wav", "wav");
    LowerOfCaseVariant("WAV", "wav");
    LowerOfCaseVariant("mp4", "mp4");
  }

  lemma ImageNormalization()
    ensures IsSupported(ImageTable, "jpg") && Normalize(ImageTable, "jpg") == "jpg"
    ensures IsSupported(ImageTable, "JPG") && Normalize(ImageTable, "JPG") == "jpg"
    ensures IsSupported(ImageTable, "jpeg") && Normalize(ImageTable, "jpeg") == "jpg"
    ensures IsSupported(ImageTable, "JPEG") && Normalize(ImageTable, "JPEG") == "jpg"
    ensures IsSupported(ImageTable, "png") && Normalize(ImageTable, "png") == "png"
    ensures IsSupported(ImageTable, "PNG") && Normalize(ImageTable, "PNG") == "png"
  {
    ImageSupport();
    LowerOfCaseVariant("jpg", "jpg");
    LowerOfCaseVariant("JPG", "jpg");
    LowerOfCaseVariant("jpeg", "jpeg");
    LowerOfCaseVariant("JPEG", "jpeg");
    LowerOfCaseVariant("png", "png");
    LowerOfCaseVariant("PNG", "png");
  }

  /** The video table accepts `mp4` in any mix of cases and nothing else, and
      always normalises to `mp4`. */
  lemma VideoSupport(v: string)
    ensures IsSupported(VideoTable, v) <==> CaseVariant(v, "mp4")
    ensures IsSupported(VideoTable, v) ==> Normalize(VideoTable, v) == "mp4"
  {
    SupportedIffCaseVariant(VideoTable, v);
  }
}
