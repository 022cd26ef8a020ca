/**
 Image paths as the export script builds them with `os.path.join`.
 The platform's joining rules are not modelled: a path is the pair of the
 directory and the file name that were joined.
 */
module Paths {

  /** The value of `os.path.join(dir, name)`. */
  datatype Path = Join(dir: string, name: string)

  /** File-name suffix of every page image in the image directory. */
  const ImageSuffix: string := ".jpg"

  /** The path of the image file of the image with the given uuid: the file `<uuid>.jpg`
      inside the image directory. */
  function ImagePath(imageDir: string, uuid: string): (p: Path)
    ensures p.dir == imageDir
    ensures |p.name| == |uuid| + |ImageSuffix|
    ensures p.name[..|uuid|] == uuid && p.name[|uuid|..] == ImageSuffix
  {
    Join(imageDir, uuid + ImageSuffix)
  }

  /** Within one image directory, distinct uuids give distinct `Join` pairs. This is a fact
      about the pair abstraction: `os.path.join` itself can map two different names to one
      path (an absolute second argument replaces the directory). */
  lemma ImagePathInjective(imageDir: string, u1: string, u2: string)
    ensures ImagePath(imageDir, u1) == ImagePath(imageDir, u2) <==> u1 == u2
  {
  }
}
