/** The image editor modal (ImageToPdf/frontend/src/components/EditImageModal.js): it keeps
    the image being edited and the chosen filter, and hands back the edited record. */
module EditImage {
  import opened Common
  import opened ImageFiles

  /** `filters.indexOf(filter)`. */
  function FilterIndex(filter: string): (r: int)
    ensures -1 <= r < |Filters|
    ensures r >= 0 ==> Filters[r] == filter
    ensures r == -1 <==> filter !in Filters
  {
    if filter == Filters[0] then 0
    else if filter == Filters[1] then 1
    else if filter == Filters[2] then 2
    else -1
  }

  /** The filter after one press of the filter button: `(indexOf + 1) % 3`. A name that is
      not in the list has index -1, so it moves to the first entry. */
  function NextFilter(filter: string): (r: string)
    ensures r in Filters
    ensures filter == "Normal" ==> r == "BW"
    ensures filter == "BW" ==> r == "Document"
    ensures filter == "Document" ==> r == "Normal"
    ensures filter !in Filters ==> r == "Normal"
  {
    Filters[(FilterIndex(filter) + 1) % |Filters|]
  }

  /** Three presses bring any listed filter back to itself. */
  lemma ToggleThrice(filter: string)
    requires filter in Filters
    ensures NextFilter(NextFilter(NextFilter(filter))) == filter
  {
  }

  /** Two presses never return a listed filter to itself, so the cycle has length exactly three. */
  lemma ToggleNotTwice(filter: string)
    requires filter in Filters
    ensures NextFilter(NextFilter(filter)) != filter
    ensures NextFilter(filter) != filter
  {
  }

  /** The filter shown when the modal opens with `image`: `image.filter || 'Normal'`. */
  function InitialFilter(image: ImageFile): (r: string)
    ensures image.filter != "" ==> r == image.filter
    ensures image.filter == "" ==> r == "Normal"
  {
    Or(image.filter, "Normal")
  }

  /** What Save hands to the screen: `{ ...currentImage, filter }`. */
  function Saved(image: ImageFile, filter: string): (r: ImageFile)
    ensures r.filter == filter
    ensures r.(filter := image.filter) == image
  {
    image.(filter := filter)
  }

  /** What Rotate stores: `{ ...currentImage, uri: result.uri }`. */
  function Rotated(image: ImageFile, uri: string): (r: ImageFile)
    ensures r.uri == uri
    ensures r.(uri := image.uri) == image
  {
    image.(uri := uri)
  }

  class ImageEditor {
    var currentImage: Option<ImageFile>
    var filter: string

    /** `useState(null)` and `useState('Normal')`. */
    constructor ()
      ensures currentImage == None && filter == "Normal"
    {
      currentImage := None;
      filter := "Normal";
    }

    /** The effect that runs when the `image` prop changes; a null prop changes nothing. */
    method Open(image: Option<ImageFile>)
      modifies this
      ensures image.Some? ==> currentImage == image && filter == InitialFilter(image.value)
      ensures image.None? ==> currentImage == old(currentImage) && filter == old(filter)
    {
      if image.Some? {
        currentImage := image;
        filter := InitialFilter(image.value);
      }
    }

    method ToggleFilter()
      modifies this
      ensures filter == NextFilter(old(filter))
      ensures currentImage == old(currentImage)
    {
      filter := NextFilter(filter);
    }

    /** `rotated` is the uri of the rotated copy, or None when the image library threw;
        the rotation itself is done by the library and is not modelled. */
    method Rotate(rotated: Option<string>)
      modifies this
      ensures currentImage.Some? <==> old(currentImage).Some?
      ensures old(currentImage).Some? && rotated.Some? ==>
                currentImage == Some(Rotated(old(currentImage).value, rotated.value))
      ensures old(currentImage).None? || rotated.None? ==> currentImage == old(currentImage)
      ensures filter == old(filter)
    {
      if currentImage.Some? && rotated.Some? {
        currentImage := Some(Rotated(currentImage.value, rotated.value));
      }
    }

    /** The record handed to `onSave`; None while no image is open (the modal then renders
        nothing, so Save cannot be pressed). */
    method Save() returns (edited: Option<ImageFile>)
      ensures edited.Some? <==> currentImage.Some?
      ensures edited.Some? ==> edited.value.filter == filter
      ensures edited.Some? ==> edited.value.(filter := currentImage.value.filter) == currentImage.value
    {
      if currentImage.Some? {
        edited := Some(Saved(currentImage.value, filter));
      } else {
        edited := None;
      }
    }
  }
}
