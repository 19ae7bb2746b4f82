/** Image resizing: the target-size arithmetic shared by `ResizeImage.resize`,
    `resize_img` and `vision.resize_image`, and the keep-or-delete decision of
    `data.file.resize_image`. Decoding, resampling and writing pixels are not part of
    the model: a loaded image is its dimensions (and PIL mode), a failed load is `None`,
    and a failed PIL resize/save is a flag. */
module Resize {
  import opened Builtins

  /** Width and height of a resized image. */
  datatype Dims = Dims(width: int, height: int)

  /** What a resize can raise: a true division by a zero side, or OpenCV's `cv2.error`
      from a colour conversion handed no image. */
  datatype ResizeError = ZeroDivisionError | CvError

  /** `ResizeImage.resize`: the shorter side (the width on a tie) becomes `size` and
      the other side is scaled by the same factor, `round(size * long / short)`: within
      half a pixel of the exact quotient, and even when it lies exactly halfway. */
  function TargetSize(width: nat, height: nat, size: int): (r: Outcome<Dims, ResizeError>)
    ensures r.Raise? <==> width == 0 || height == 0
    ensures r.Raise? ==> r.error == ZeroDivisionError
    ensures r.Ok? && width <= height ==> r.value.width == size && IsRounding(size * height, width, r.value.height)
    ensures r.Ok? && width > height ==> r.value.height == size && IsRounding(size * width, height, r.value.width)
  {
    if width <= height then
      if width == 0 then Raise(ZeroDivisionError) else Ok(Dims(size, RoundHalfEven(size * height, width)))
    else
      if height == 0 then Raise(ZeroDivisionError) else Ok(Dims(RoundHalfEven(size * width, height), size))
  }

  lemma MulMonotone(x: int, y: int, d: int)
    requires x <= y && d >= 0
    ensures x * d <= y * d
  {
  }

  lemma ProductStep(r: int, d: int)
    ensures (r + 1) * d == r * d + d
  {
  }

  /** Rounding a quotient that is at least the integer `size` cannot go below `size`. */
  lemma RoundNotBelow(n: int, d: int, size: int)
    requires d > 0 && n >= size * d
    ensures RoundHalfEven(n, d) >= size
  {
    var r := RoundHalfEven(n, d);
    if r < size {
      MulMonotone(r + 1, size, d);
      ProductStep(r, d);
    }
  }

  /** Scaling the longer side by `size / short` does not take it below `size`. */
  lemma ScaledSideNotBelow(short: int, long: int, size: int)
    requires 0 < short <= long && size >= 0
    ensures RoundHalfEven(size * long, short) >= size
  {
    MulMonotone(short, long, size);
    assert size * short <= size * long;
    RoundNotBelow(size * long, short, size);
  }

  /** A square image becomes `size` by `size`. */
  lemma SquareImage(side: nat, size: int)
    requires side > 0
    ensures TargetSize(side, side, size) == Ok(Dims(size, size))
  {
    RoundHalfEvenUnique(size * side, side, size);
  }

  /** The value `TargetSize` computes for an image with two non-zero sides. */
  lemma TargetSizeOfImage(width: nat, height: nat, size: int)
    requires width > 0 && height > 0
    ensures width <= height ==> TargetSize(width, height, size) == Ok(Dims(size, RoundHalfEven(size * height, width)))
    ensures width > height ==> TargetSize(width, height, size) == Ok(Dims(RoundHalfEven(size * width, height), size))
  {
  }

  /** For a non-negative `size` the shorter side becomes `size` exactly and the longer
      side does not fall below it, so the orientation is kept. */
  lemma {:induction false} ShorterSideBecomesSize(width: nat, height: nat, size: int)
    requires width > 0 && height > 0 && size >= 0
    ensures var r := TargetSize(width, height, size);
            && r.Ok?
            && Min(r.value.width, r.value.height) == size
            && (width <= height ==> r.value.width <= r.value.height)
            && (width >= height ==> r.value.width >= r.value.height)
  {
    TargetSizeOfImage(width, height, size);
    if width <= height {
      ScaledSideNotBelow(width, height, size);
    } else {
      ScaledSideNotBelow(height, width, size);
    }
  }

  /** A loaded OpenCV image: numpy's shape is `(height, width, channels)`. */
  datatype CvImage = CvImage(height: nat, width: nat, channels: nat)

  /** The file written back by `resize_img`, with the dimensions it was resized to. */
  datatype Rewritten = Rewritten(path: string, width: int, height: int)

  /** `resize_img` (`utilities/core/files.py`) and `resize_image` (`utilities/vision.py`):
      a missing image returns `None` and writes nothing; otherwise the shape is read as
      (height, width), the target size computed (a zero side raises, as nothing catches
      it), the image overwritten in place and its path returned. */
  function ResizeFile(path: string, image: Option<CvImage>, size: int): (r: Outcome<Option<Rewritten>, ResizeError>)
    ensures image.None? ==> r == Ok(None)
    ensures image.Some? ==> (r.Raise? <==> image.value.width == 0 || image.value.height == 0)
    ensures r.Raise? ==> r.error == ZeroDivisionError
    ensures image.Some? && r.Ok? ==> r.value.Some?
    ensures r.Ok? && r.value.Some? ==>
              && image.Some?
              && r.value.value.path == path
              && TargetSize(image.value.width, image.value.height, size)
                 == Ok(Dims(r.value.value.width, r.value.value.height))
    ensures r.Ok? && r.value.Some? && size >= 0 ==>
              Min(r.value.value.width, r.value.value.height) == size
  {
    match image
    case None => Ok(None)
    case Some(img) =>
      match TargetSize(img.width, img.height, size)
      case Raise(e) => Raise(e)
      case Ok(dims) =>
        var written := Ok(Some(Rewritten(path, dims.width, dims.height)));
        if size < 0 then written
        else ShorterSideBecomesSize(img.width, img.height, size); written
  }

  /** The loaders `load_img` (`utilities/core/files.py`) and `load_image`
      (`utilities/vision.py`) as written: `decoded` is what `cv2.imread` gives, `None`
      for a file it cannot read. The result goes straight into `cv2.cvtColor`, which
      raises `cv2.error` on `None`; `load_img` catches only `FileNotFoundError`, which
      neither call raises, and `load_image` catches nothing. */
  function LoadCvAsWritten(decoded: Option<CvImage>): (r: Outcome<Option<CvImage>, ResizeError>)
    ensures r.Raise? <==> decoded.None?
    ensures r.Raise? ==> r.error == CvError
    ensures r.Ok? ==> r.value == decoded && r.value.Some?
  {
    match decoded
    case None => Raise(CvError)
    case Some(img) => Ok(Some(img))
  }

  /** `resize_img` and `resize_image` with their loaders as written: the `None` branch
      can never be taken, and an unreadable file raises instead. */
  function ResizeFileAsWritten(path: string, decoded: Option<CvImage>, size: int): (r: Outcome<Option<Rewritten>, ResizeError>)
    ensures r.Ok? ==> r.value.Some?
    ensures decoded.None? ==> r == Raise(CvError)
    ensures decoded.Some? ==> r == ResizeFile(path, decoded, size)
  {
    match LoadCvAsWritten(decoded)
    case Raise(e) => Raise(e)
    case Ok(image) => ResizeFile(path, image, size)
  }

  /** The discrepancy: for a file OpenCV cannot read, the documented and intended
      result is `None`, but the code as written raises `cv2.error`. */
  lemma UnreadableFileRaises(path: string, size: int)
    ensures ResizeFile(path, None, size) == Ok(None)
    ensures ResizeFileAsWritten(path, None, size) == Raise(CvError)
  {
  }

  /** A loaded PIL image: its size and its mode string (`"RGB"`, `"L"`, `"RGBA"`, ...). */
  datatype PilImage = PilImage(width: nat, height: nat, mode: string)

  /** The `ResizeImage` dataclass: where the file is, the target size, and whether an
      image whose mode does not have three letters is to be discarded. */
  datatype ResizeImage = ResizeImage(path: string, size: int, check: bool)

  /** `image_shape`: `(width, height, len(mode))` of a loaded image, `None` otherwise. */
  function ImageShape(image: Option<PilImage>): (r: Option<(nat, nat, nat)>)
    ensures r.None? <==> image.None?
    ensures r.Some? ==> r.value == (image.value.width, image.value.height, |image.value.mode|)
  {
    match image
    case None => None
    case Some(img) => Some((img.width, img.height, |img.mode|))
  }

  /** `resize_image` (`utilities/data/file.py`): `delete` and `channels` are set
      branch by branch (a failed load or a resize that raises, whether from the
      arithmetic or from PIL, sets `delete` and zero channels); then the file is deleted
      and `None` returned when `delete or (check and channels != 3)`, else the path is
      returned. `pilFails` says whether PIL's `resize(...).save(path)` raised. */
  method ResizeImageFile(item: ResizeImage, image: Option<PilImage>, pilFails: bool)
    returns (result: Option<string>, deleted: bool)
    ensures deleted <==> result.None?
    ensures result.Some? ==> result.value == item.path
    ensures deleted <==>
              || image.None?
              || TargetSize(image.value.width, image.value.height, item.size).Raise?
              || pilFails
              || (item.check && |image.value.mode| != 3)
    ensures result.Some? && item.check ==> ImageShape(image).Some? && ImageShape(image).value.2 == 3
  {
    var delete: bool;
    var channels: nat;
    if image.Some? {
      channels := |image.value.mode|;
      var target := TargetSize(image.value.width, image.value.height, item.size);
      if target.Raise? || pilFails {
        delete := true;
        channels := 0;
      } else {
        delete := false;
      }
    } else {
      delete := true;
      channels := 0;
    }
    if delete || (item.check && channels != 3) {
      deleted := true;
      result := None;
    } else {
      deleted := false;
      result := Some(item.path);
    }
  }
}
