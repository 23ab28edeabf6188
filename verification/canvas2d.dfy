/** An abstract 2D drawing surface. Pixels are not modelled: the surface is
    its size plus the stack of full-surface `drawImage` calls made since it
    was last cleared, bottom first. */
module Canvas2D {

  import opened Options

  /** A decoded image element, known by the path it was loaded from. */
  datatype Image = Image(src: string)

  /** `drawImage(img, 0, 0, width, height)`: `img` scaled to that size. */
  datatype Draw = Draw(img: Image, width: nat, height: nat)

  datatype Canvas = Canvas(width: nat, height: nat, paint: seq<Draw>)

  /** A fresh canvas element: 300 by 150 and blank. */
  const Fresh: Canvas := Canvas(300, 150, [])

  /** Assigning `canvas.width` and `canvas.height` resets the bitmap: the
      surface takes the new size and shows nothing. */
  function Resize(c: Canvas, width: nat, height: nat): (r: Canvas)
    ensures r.width == width && r.height == height
    ensures Top(r) == None
  {
    Canvas(width, height, [])
  }

  /** `clearRect(0, 0, canvas.width, canvas.height)`. */
  function ClearAll(c: Canvas): Canvas {
    c.(paint := [])
  }

  /** `drawImage(img, 0, 0, canvas.width, canvas.height)`. */
  function DrawFull(c: Canvas, img: Image): Canvas {
    c.(paint := c.paint + [Draw(img, c.width, c.height)])
  }

  /** The image on top of the surface, if anything has been drawn. */
  function Top(c: Canvas): Option<Image> {
    if c.paint == [] then None else Some(c.paint[|c.paint| - 1].img)
  }

}
