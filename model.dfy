/**
 * The image collector behind an emulated device: one image per programming
 * session. A session start opens a new image unless the last one is still
 * empty, writes go to the last image, and a session end reports a received
 * image when the last one holds anything.
 */
module Model {
  import opened Bytes
  import opened ImageModel

  class ImageCollector {
    var images: seq<Image>
    /** The collector and its images: the objects its methods may change. */
    ghost var Repr: set<object>

    /**
     * The images are distinct objects, each sorted, and every image except
     * possibly the last is non-empty.
     */
    ghost predicate Valid()
      reads this, Repr
    {
      && this in Repr
      && (forall i | 0 <= i < |images| :: images[i] in Repr)
      && (forall i, j | 0 <= i < j < |images| :: images[i] != images[j])
      && (forall i | 0 <= i < |images| :: images[i].Valid())
      && (forall i | 0 <= i < |images| - 1 :: images[i].elements != [])
    }

    constructor ()
      ensures Valid() && images == [] && Repr == {this}
    {
      images := [];
      Repr := {this};
    }

    /** ImageCollector::first: null iff there is no image. */
    function First(): (r: Image?)
      reads this
      ensures r == null <==> |images| == 0
      ensures r != null ==> r == images[0]
    {
      if |images| == 0 then null else images[0]
    }

    /** ImageCollector::last: null iff there is no image. */
    function Last(): (r: Image?)
      reads this
      ensures r == null <==> |images| == 0
      ensures r != null ==> r == images[|images| - 1]
    {
      if |images| == 0 then null else images[|images| - 1]
    }

    /** ImageCollector::previous: the image before the last, null iff there are fewer than two. */
    function Previous(): (r: Image?)
      reads this
      ensures r == null <==> |images| < 2
      ensures r != null ==> r == images[|images| - 2]
    {
      if |images| <= 1 then null else images[|images| - 2]
    }

    /** No image was added or removed, and every image keeps its bytes. */
    twostate predicate Untouched()
      reads this, images
    {
      && images == old(images)
      && forall i | 0 <= i < |images| :: images[i].elements == old(images[i].elements)
    }

    /**
     * What startProgram leaves: the last image exists and is empty; it is a
     * new image unless the last one already was empty; the images before it
     * keep their bytes.
     */
    twostate predicate Started()
      reads this, images
    {
      && |images| > 0 && images[|images| - 1].elements == []
      && (old(|images|) > 0 && old(images[|images| - 1].elements) == [] ==> images == old(images))
      && (old(|images|) == 0 || old(images[|images| - 1].elements) != [] ==>
            images[..|images| - 1] == old(images) && fresh(images[|images| - 1]))
      && forall i | 0 <= i < old(|images|) :: i < |images| && images[i].elements == old(images[i].elements)
    }

    /**
     * What a write leaves: the same images, the data appended to the last
     * one, and every other image keeps its bytes.
     */
    twostate predicate WroteLast(address: u32, payload: seq<byte>)
      reads this, images
    {
      && images == old(images)
      && (|images| > 0 && old(ImageModel.Sorted(images[|images| - 1].elements)) ==>
            images[|images| - 1].elements == AppendedImage(old(images[|images| - 1].elements), address, payload))
      && forall i | 0 <= i < |images| - 1 :: images[i].elements == old(images[i].elements)
    }

    /** ImageCollector::read: the collector holds no readable memory. */
    method Read(address: u32, length: byte) returns (ok: bool, payload: seq<byte>)
      ensures !ok && payload == []
    {
      ok, payload := false, [];
    }

    /** ImageCollector::write: appends to the last image; fails when there is none. */
    method Write(address: u32, payload: seq<byte>) returns (ok: bool)
      requires Valid()
      modifies Last()
      ensures Valid()
      ensures ok <==> |images| > 0
      ensures ok ==> images[|images| - 1].elements
                     == AppendedImage(old(images[|images| - 1].elements), address, payload)
      ensures ok ==> images[|images| - 1].elements != []
      ensures forall i | 0 <= i < |images| - 1 :: images[i].elements == old(images[i].elements)
      ensures WroteLast(address, payload)
    {
      if |images| == 0 {
        return false;
      }
      var last := images[|images| - 1];
      AppendedImageNonEmpty(last.elements, address, payload);
      last.Append(address, payload);
      ok := true;
    }

    /**
     * ImageCollector::startProgram: opens a new, empty image unless the last
     * one is still empty; afterwards the last image exists and is empty.
     */
    method StartProgram()
      requires Valid()
      modifies this
      ensures Valid()
      ensures |images| > 0 && images[|images| - 1].elements == []
      ensures old(|images|) == 0 || old(images[|images| - 1].elements) != [] ==>
                images[..|images| - 1] == old(images) && fresh(images[|images| - 1])
      ensures old(|images|) > 0 && old(images[|images| - 1].elements) == [] ==> images == old(images)
      ensures Started()
      ensures fresh(Repr - old(Repr))
    {
      if |images| == 0 || images[|images| - 1].elements != [] {
        var image := new Image();
        images := images + [image];
        Repr := Repr + {image};
      }
    }

    /** ImageCollector::endProgram: an image is reported iff the last image exists and is non-empty. */
    method EndProgram() returns (imageReceived: bool)
      requires Valid()
      ensures imageReceived <==> |images| > 0 && images[|images| - 1].elements != []
    {
      imageReceived := |images| != 0 && images[|images| - 1].elements != [];
    }
  }
}
