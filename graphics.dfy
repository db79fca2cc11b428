/** The image slots of the font chooser (graphics_manager in graphics.go): five images,
    reachable both by name and through the `images` array, that are given consecutive
    image numbers when the kitten starts, learn their terminal id from the terminal's
    answer, and are deleted by number when it exits. The bytes of the graphics commands are
    not part of this model: a method returns the image numbers it sends commands for. */
module Graphics {
  import opened Wrappers
  import MapOrder
  import Search

  newtype uint32 = x: int | 0 <= x < 0x1_0000_0000

  /** The number initialize starts counting from; the first image gets the next one. */
  const BaseImageNumber: uint32 := 7891230

  /** One image slot. */
  class Image {
    var id: uint32
    var imageNumber: uint32
    var currentFile: string

    constructor ()
      ensures id == 0 && imageNumber == 0 && currentFile == ""
    {
      id := 0;
      imageNumber := 0;
      currentFile := "";
    }
  }

  class GraphicsManager {
    var main: Image
    var bold: Image
    var italic: Image
    var bi: Image
    var extra: Image
    var images: array<Image?>

    /** The five named slots, in the order of the `images` array. */
    function Slots(): seq<Image>
      reads this
    {
      [main, bold, italic, bi, extra]
    }

    function Numbers(): seq<uint32>
      reads this, main, bold, italic, bi, extra
    {
      [main.imageNumber, bold.imageNumber, italic.imageNumber, bi.imageNumber, extra.imageNumber]
    }

    function Ids(): seq<uint32>
      reads this, main, bold, italic, bi, extra
    {
      [main.id, bold.id, italic.id, bi.id, extra.id]
    }

    /** The file each slot shows (written by display_image, which is not part of this model). */
    function Files(): seq<string>
      reads this, main, bold, italic, bi, extra
    {
      [main.currentFile, bold.currentFile, italic.currentFile, bi.currentFile, extra.currentFile]
    }

    /** The numbers, ids and files are those of the slots, read in order. */
    lemma SlotFields()
      ensures forall j :: 0 <= j < 5 ==> Numbers()[j] == Slots()[j].imageNumber && Ids()[j] == Slots()[j].id
      ensures forall j :: 0 <= j < 5 ==> Files()[j] == Slots()[j].currentFile
    {
    }

    /** After initialize: the array holds the five named slots, in order, and they are five
        different images. */
    ghost predicate Valid()
      reads this, images
    {
      && images.Length == 5
      && (forall k :: 0 <= k < 5 ==> images[k] == Slots()[k])
      && MapOrder.NoDuplicates(Slots())
    }

    /** The zero manager: five empty images; the array is filled by Initialize. */
    constructor ()
      ensures images.Length == 5 && fresh(images)
      ensures MapOrder.NoDuplicates(Slots())
      ensures Numbers() == [0, 0, 0, 0, 0] && Ids() == [0, 0, 0, 0, 0]
    {
      main := new Image();
      bold := new Image();
      italic := new Image();
      bi := new Image();
      extra := new Image();
      images := new Image?[5];
    }

    /** initialize: the array is pointed at the five slots, and each slot in turn takes the
        next image number, the counter wrapping at 32 bits; one transmit command is sent per
        slot, with that number. */
    method Initialize() returns (sent: seq<uint32>)
      requires images.Length == 5 && MapOrder.NoDuplicates(Slots())
      modifies images, main, bold, italic, bi, extra
      ensures Valid()
      ensures Numbers() == [7891231, 7891232, 7891233, 7891234, 7891235]
      ensures MapOrder.NoDuplicates(Numbers())
      ensures sent == Numbers()
      ensures Ids() == old(Ids()) && Files() == old(Files())
    {
      images[0], images[1], images[2], images[3], images[4] := main, bold, italic, bi, extra;
      var im: uint32 := BaseImageNumber;
      sent := [];
      var k := 0;
      while k < 5
        invariant 0 <= k <= 5
        invariant Valid()
        invariant im as int == BaseImageNumber as int + k
        invariant |sent| == k
        invariant forall j :: 0 <= j < k ==> Numbers()[j] == sent[j] && sent[j] as int == BaseImageNumber as int + 1 + j
        invariant Ids() == old(Ids()) && Files() == old(Files())
      {
        im := ((im as int + 1) % 0x1_0000_0000) as uint32;
        ghost var numbers, ids, files := Numbers(), Ids(), Files();
        SlotFields();
        images[k].imageNumber := im;
        SlotFields();
        assert Numbers() == numbers[k := im] && Ids() == ids && Files() == files;
        sent := sent + [im];
        k := k + 1;
      }
    }

    /** on_response: an answer other than OK is an error and changes nothing; on OK the
        first slot with the answer's image number takes the answer's image id, and when no
        slot has that number nothing changes. */
    method OnResponse(message: string, number: uint32, imageId: uint32) returns (err: Option<string>)
      requires Valid()
      modifies main, bold, italic, bi, extra
      ensures Numbers() == old(Numbers()) && Files() == old(Files())
      ensures message != "OK" ==> err == Some("Failed to load image with error: " + message) && Ids() == old(Ids())
      ensures message == "OK" ==> err.None?
      ensures message == "OK" && Search.FirstIndex(old(Numbers()), number).None? ==> Ids() == old(Ids())
      ensures message == "OK" && Search.FirstIndex(old(Numbers()), number).Some? ==>
        Ids() == old(Ids())[Search.FirstIndex(old(Numbers()), number).value := imageId]
    {
      if message != "OK" {
        return Some("Failed to load image with error: " + message);
      }
      var k := 0;
      while k < 5
        invariant 0 <= k <= 5
        invariant forall j :: 0 <= j < k ==> Numbers()[j] != number
        invariant Ids() == old(Ids()) && Numbers() == old(Numbers()) && Files() == old(Files())
      {
        if images[k].imageNumber == number {
          SlotFields();
          assert Numbers()[k] == number;
          ghost var ids, files := Ids(), Files();
          images[k].id := imageId;
          SlotFields();
          assert Ids() == ids[k := imageId] && Files() == files;
          assert Search.FirstIndex(old(Numbers()), number) == Some(k);
          return None;
        }
        k := k + 1;
      }
      return None;
    }

    /** finalize: one delete command per slot, by image number, in the order main, bold,
        italic, bold-italic, extra. */
    method Finalize() returns (deleted: seq<uint32>)
      ensures deleted == Numbers()
    {
      deleted := [];
      deleted := deleted + [main.imageNumber];
      deleted := deleted + [bold.imageNumber];
      deleted := deleted + [italic.imageNumber];
      deleted := deleted + [bi.imageNumber];
      deleted := deleted + [extra.imageNumber];
    }
  }
}
