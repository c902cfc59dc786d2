/** The image record kept in the ImageToPdf queue (ImageToPdf/frontend/src/screens/HomeScreen.js)
    and handed to the editor (ImageToPdf/frontend/src/components/EditImageModal.js). */
module ImageFiles {

  /** 'pending', 'converting', 'done' and 'error'. */
  datatype Status = Pending | Converting | Done | Failed

  /** One queued image. An absent `pdfUri` is "" (both are falsy for `||`). */
  datatype ImageFile = ImageFile(
    uri: string,
    name: string,
    size: nat,
    mimeType: string,
    status: Status,
    filter: string,
    pdfUri: string)

  /** The filter names the editor cycles through, in order. */
  const Filters: seq<string> := ["Normal", "BW", "Document"]
}
