/** ImageValidationUtil: the stricter check a profile image passes on top of
    the general metadata validation. */
module ImageValidationUtil {
  import opened Common
  import opened Text
  import opened Entities
  import opened FileUtil

  /** ALLOWED_IMAGE_TYPES: the content types a profile image may declare. */
  const AllowedImageTypes: set<string> := {"image/jpeg", "image/png", "image/gif", "image/webp"}

  /** validateProfileImage(request, maxSize): the general rules first, then the
      image type, then the configured maximum (quoted in whole MiB, rounded
      toward zero as Java's long division does). */
  function ValidateProfileImage(request: Option<UploadRequest>, maxSize: int): (v: Verdict)
    ensures ValidateMetadata(request).Reject? ==> v == ValidateMetadata(request)
    ensures v.Accept? <==>
      && ValidateMetadata(request).Accept?
      && request.value.contentType.value in AllowedImageTypes
      && request.value.size <= maxSize
    ensures v == Reject(NotAnImage) <==>
      ValidateMetadata(request).Accept? && request.value.contentType.value !in AllowedImageTypes
    ensures (ValidateMetadata(request).Accept? && request.value.contentType.value in AllowedImageTypes
             && request.value.size > maxSize) ==> v == Reject(ImageTooLarge(JavaDiv(maxSize, MiB)))
  {
    var general := ValidateMetadata(request);
    if general.Reject? then general
    else
      var r := request.value;
      if r.contentType.value !in AllowedImageTypes then Reject(NotAnImage)
      else if r.size > maxSize then Reject(ImageTooLarge(JavaDiv(maxSize, MiB)))
      else Accept
  }

  /** The family of "image/<sub>" is "image", and the type has the image limit. */
  lemma ImageSubtype(sub: string)
    requires "image/" + sub in AllowedTypes
    ensures Family("image/" + sub) == "image"
    ensures GetFileType(Some("image/" + sub)) == Image && SizeLimit("image/" + sub) == 10 * MiB
  {
    FamilyOf("image", sub);
    assert "image/" + sub == "image" + "/" + sub;
  }

  /** What the general table says about a content type of the image family. */
  predicate ImageFacts(contentType: string) {
    && contentType in AllowedTypes && Family(contentType) == "image"
    && GetFileType(Some(contentType)) == Image && SizeLimit(contentType) == 10 * MiB
  }

  lemma JpegIsImage()
    ensures ImageFacts("image/jpeg")
  {
    assert "image/jpeg" in AllowedTypes;
    assert "image/jpeg" == "image/" + "jpeg";
    ImageSubtype("jpeg");
  }

  lemma PngIsImage()
    ensures ImageFacts("image/png")
  {
    assert "image/png" in AllowedTypes;
    assert "image/png" == "image/" + "png";
    ImageSubtype("png");
  }

  lemma GifIsImage()
    ensures ImageFacts("image/gif")
  {
    assert "image/gif" in AllowedTypes;
    assert "image/gif" == "image/" + "gif";
    ImageSubtype("gif");
  }

  lemma WebpIsImage()
    ensures ImageFacts("image/webp")
  {
    assert "image/webp" in AllowedTypes;
    assert "image/webp" == "image/" + "webp";
    ImageSubtype("webp");
  }

  /** Each of the four image types is in the general table, in the image family,
      and therefore held to the 10 MiB image limit. */
  lemma ImageTypesAreImages(contentType: string)
    requires contentType in AllowedImageTypes
    ensures contentType in AllowedTypes && Family(contentType) == "image"
    ensures GetFileType(Some(contentType)) == Image && SizeLimit(contentType) == 10 * MiB
  {
    if contentType == "image/jpeg" {
      JpegIsImage();
    } else if contentType == "image/png" {
      PngIsImage();
    } else if contentType == "image/gif" {
      GifIsImage();
    } else {
      WebpIsImage();
    }
  }

  /** What an accepted profile image is: a request the general rules accept, of
      the image family, with a positive size no larger than both the configured
      maximum and the 10 MiB image limit. */
  lemma AcceptedProfileImage(request: Option<UploadRequest>, maxSize: int)
    requires ValidateProfileImage(request, maxSize).Accept?
    ensures ValidateMetadata(request).Accept?
    ensures var r := request.value;
            && r.contentType.Some? && Family(r.contentType.value) == "image"
            && 0 < r.size <= maxSize && r.size <= 10 * MiB
  {
    ImageTypesAreImages(request.value.contentType.value);
  }

  /** The configured maximum is inclusive up to the image limit. Below the image
      limit, one byte more is refused with the configured maximum in MiB rather
      than by the general rules. */
  lemma ProfileLimitInclusive(r: UploadRequest, maxSize: int)
    requires NamePresent(r) && NameFits(r) && ExtensionAllowed(r)
    requires r.contentType.Some? && r.contentType.value in AllowedImageTypes
    requires 0 < maxSize <= 10 * MiB
    ensures ValidateProfileImage(Some(r.(size := maxSize)), maxSize) == Accept
    ensures maxSize < 10 * MiB ==>
              (ValidateProfileImage(Some(r.(size := maxSize + 1)), maxSize)
               == Reject(ImageTooLarge(JavaDiv(maxSize, MiB))))
  {
    ImageTypesAreImages(r.contentType.value);
    AcceptsConforming(r.(size := maxSize));
    if maxSize < 10 * MiB {
      AcceptsConforming(r.(size := maxSize + 1));
    }
  }

  /** At the image limit itself the general rule fires first: a request one byte
      over 10 MiB is refused as too large for the image family even when the
      configured maximum is larger. */
  lemma GeneralLimitFiresFirst(r: UploadRequest, maxSize: int)
    requires NamePresent(r) && NameFits(r) && ExtensionAllowed(r)
    requires r.contentType.Some? && r.contentType.value in AllowedImageTypes
    requires r.size > 10 * MiB
    ensures ValidateProfileImage(Some(r), maxSize) == Reject(TooLarge(Image, 10))
  {
    ImageTypesAreImages(r.contentType.value);
    assert SizeLimit(r.contentType.value) / MiB == 10 by { assert MiB == 1048576; }
    OverLimitVerdict(r, Image, 10);
  }
}
