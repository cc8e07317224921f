/** The extension lists shared, letter for letter, by the scanner, the
    fetcher, the merger and the copier. The merger and the copier hold the first
    two as sets; membership is the same either way. */
module Media {

  const ImageExtensions: seq<string> := [".jpg", ".jpeg", ".png", ".gif", ".bmp", ".tiff", ".webp", ".heic", ".heif"]
  const VideoExtensions: seq<string> := [".mp4", ".mov", ".avi", ".wmv", ".mkv", ".flv", ".webm", ".m4v", ".3gp", ".mpg", ".mpeg"]
  const OtherExtensions: seq<string> := [".json", ".xz", ".json.xz", ".txt", ".csv", ".zip", ".rar", ".7z", ".iso", ".dmg"]

  /** No extension is both an image and a video extension. */
  lemma ExtensionListsDisjoint()
    ensures forall e :: e in ImageExtensions ==> e !in VideoExtensions
  {
  }
}
