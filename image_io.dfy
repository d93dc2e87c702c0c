/** app/utils/image_io.py: the upload size gate and error collapsing, the depth
    coverage percentage and the stored file name. Image decoding and hashing
    are inputs. */
module ImageIO {
  import opened Wrappers
  import opened Text
  import opened Rounding

  newtype Byte = b: int | 0 <= b < 256

  const MaxBytes: int := 8 * 1024 * 1024

  const TooLargeMessage := "File too large (max 8MB)."
  const UnsupportedMessage := "Unsupported image format (use JPEG/PNG/WebP)."
  const InvalidMessage := "Invalid or corrupted image."

  const AcceptedFormats: set<string> := {"JPEG", "PNG", "WEBP"}
  const AllowedExtensions: set<string> := {"jpg", "jpeg", "png", "webp"}

  /** What the image library makes of the bytes: a loaded image of some
      format, or an exception from opening, verifying or loading it. */
  datatype Decoding = Decoded(format: string) | DecodeError

  /** An exception raised inside the `try` block. */
  datatype Raised = LibraryError | ValueError(message: string)

  /** The `try` block: open, verify, reopen and load, then the format check. */
  function LoadImage(decoding: Decoding): (r: Result<string, Raised>)
    ensures r.Success? <==> decoding.Decoded? && decoding.format in AcceptedFormats
    ensures r.Success? ==> r.value == decoding.format
    ensures decoding.Decoded? && decoding.format !in AcceptedFormats ==>
      r == Failure(ValueError(UnsupportedMessage))
  {
    match decoding
    case DecodeError => Failure(LibraryError)
    case Decoded(format) =>
      if format !in AcceptedFormats then Failure(ValueError(UnsupportedMessage))
      else Success(format)
  }

  /** `validate_image_or_raise`: the size gate comes first; every exception of
      the `try` block, the unsupported-format one included, leaves as the one
      "invalid" message. */
  function ValidateImage(raw: seq<Byte>, decoding: Decoding): (r: Result<string, string>)
    ensures |raw| > MaxBytes ==> r == Failure(TooLargeMessage)
    ensures r.Success? <==> |raw| <= MaxBytes && decoding.Decoded? && decoding.format in AcceptedFormats
    ensures r.Success? ==> r.value == decoding.format
    ensures |raw| <= MaxBytes && r.Failure? ==> r.error == InvalidMessage
    ensures r.Failure? ==> r.error != UnsupportedMessage
  {
    if |raw| > MaxBytes then Failure(TooLargeMessage)
    else
      match LoadImage(decoding)
      case Success(format) => Success(format)
      case Failure(_) => Failure(InvalidMessage)
  }

  /** What the pixel reader yields: the grey values, or an exception. */
  datatype PixelRead = Pixels(values: seq<int>) | ReadError

  /** `sum(1 for p in pixels if p and int(p) > 0)` on integer pixels. */
  function CountPositive(ps: seq<int>): (n: nat)
    ensures n <= |ps|
    ensures n == 0 <==> forall i :: 0 <= i < |ps| ==> ps[i] <= 0
    ensures n == |ps| <==> forall i :: 0 <= i < |ps| ==> ps[i] > 0
  {
    if ps == [] then 0
    else CountPositive(ps[..|ps| - 1]) + (if ps[|ps| - 1] > 0 then 1 else 0)
  }

  /** `read_depth_and_coverage`: the share of positive pixels as a percentage
      with one decimal; 0.0 for empty input, an unreadable image or no pixels. */
  function DepthCoverage(depth: seq<Byte>, read: PixelRead): (r: real)
    ensures 0.0 <= r <= 100.0
    ensures |depth| == 0 || read.ReadError? || (read.Pixels? && read.values == []) ==> r == 0.0
    ensures |depth| > 0 && read.Pixels? && read.values != [] ==>
      r == Round1(CountPositive(read.values) as real / |read.values| as real * 100.0)
  {
    if |depth| == 0 then 0.0
    else
      match read
      case ReadError => 0.0
      case Pixels(ps) =>
        var total := |ps|;
        var nonzero := CountPositive(ps);
        if total == 0 then 0.0
        else
          PercentageBound(nonzero, total);
          Round1(nonzero as real / total as real * 100.0)
  }

  /** A share of at most the whole, as a rounded percentage, lies in [0, 100]. */
  lemma PercentageBound(part: nat, whole: nat)
    requires part <= whole && whole > 0
    ensures 0.0 <= Round1(part as real / whole as real * 100.0) <= 100.0
  {
    var q := part as real / whole as real;
    ShareBound(part as real, whole as real);
    assert 0.0 <= q * 100.0 <= 100.0;
    Round1Monotone(q * 100.0, 100.0);
    Round1OfTenths(1000);
  }

  lemma ShareBound(part: real, whole: real)
    requires 0.0 <= part <= whole && whole > 0.0
    ensures 0.0 <= part / whole <= 1.0
  {
    assert part / whole * whole == part;
  }

  /** The extension kept for a stored upload: the lower-cased text after the
      last "." (all of the name when it has none), or "jpg" when that is not
      jpg, jpeg, png or webp. */
  function StoredExtension(origName: string): (e: string)
    ensures e in AllowedExtensions
    ensures Lower(LastSegment(origName)) in AllowedExtensions ==> e == Lower(LastSegment(origName))
    ensures Lower(LastSegment(origName)) !in AllowedExtensions ==> e == "jpg"
  {
    var ext := Lower(LastSegment(origName));
    if ext !in AllowedExtensions then "jpg" else ext
  }

  /** `h[:16]`: the first 16 characters of the digest, all of it when shorter. */
  function DigestPrefix(hexDigest: string): (h: string)
    ensures |h| == (if |hexDigest| < 16 then |hexDigest| else 16)
    ensures h == hexDigest[..|h|]
  {
    if |hexDigest| < 16 then hexDigest else hexDigest[..16]
  }

  /** `hashed_filename`: the digest prefix, a ".", and the stored extension,
      and nothing else. */
  function HashedFilename(hexDigest: string, origName: string): (r: string)
    ensures var h := DigestPrefix(hexDigest);
      var e := StoredExtension(origName);
      |r| == |h| + 1 + |e| && r[..|h|] == h && r[|h|] == '.' && r[|h| + 1..] == e
  {
    var h := DigestPrefix(hexDigest);
    var e := StoredExtension(origName);
    JoinParts(h, e);
    h + "." + e
  }

  /** The parts of `h + "." + e` sit where they were put. */
  lemma JoinParts(h: string, e: string)
    ensures var r := h + "." + e;
      |r| == |h| + 1 + |e| && r[..|h|] == h && r[|h|] == '.' && r[|h| + 1..] == e
  {
  }

  /** A stored name keeps its extension: storing it again yields the same
      extension, since the digest has no "." and the extension is already
      lower-case and allowed. */
  lemma StoredNameKeepsExtension(hexDigest: string, origName: string)
    requires '.' !in hexDigest
    ensures StoredExtension(HashedFilename(hexDigest, origName)) == StoredExtension(origName)
  {
    var h := DigestPrefix(hexDigest);
    var e := StoredExtension(origName);
    NoDotInPrefix(hexDigest, |h|);
    AllowedExtensionIsPlain(e);
    LastSegmentAfterDot(h, e);
  }

  lemma NoDotInPrefix(s: string, n: int)
    requires '.' !in s && 0 <= n <= |s|
    ensures '.' !in s[..n]
  {
    assert forall k :: 0 <= k < n ==> s[..n][k] == s[k];
  }

  lemma AllowedExtensionIsPlain(e: string)
    requires e in AllowedExtensions
    ensures '.' !in e && Lower(e) == e
  {
    if e == "jpg" {
    } else if e == "jpeg" {
    } else if e == "png" {
    } else {
      assert e == "webp";
    }
  }
}
