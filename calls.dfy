/** What the pipeline hands to its collaborators, and the log of the calls it makes. */
module Calls {
  import Storage

  /** The OCR model handle; the caller may pass None instead. */
  datatype ModelHandle = ModelHandle(name: string)

  /** The product recommender's candidate list, passed on untouched. */
  datatype Products = Products(items: seq<string>)

  /** The proximity recommender's result, returned untouched. */
  datatype Recommendations = Recommendations(items: seq<string>)

  /**
   * One externally visible action of a run, in the order it happens. OcrAndExtract stands for one
   * attempt of lines 67-68: ocr_receipt on the image, then extract_dict on its text with the key
   * path, uid and email; when ocr_receipt raises, the attempt ends before extract_dict is called.
   */
  datatype Effect =
    | OcrAndExtract(image: Storage.Path, model: ModelHandle, key: Storage.Path, uid: string, email: string)
    | CopyFile(source: Storage.Path, target: Storage.Path)
    | WriteCsv(target: Storage.Path)
    | CallRecommend(dataset: Storage.Path, uid: string)
    | CallNearby(dataset: Storage.Path, uid: string, products: Products, lon: real, lat: real)
}
