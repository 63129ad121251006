/** The comic record returned by the comic metadata API and stored in the block's `comic` attribute. */
module Comics {
  /** The four fields of the API's JSON object that the block reads. */
  datatype Comic = Comic(num: int, title: string, img: string, alt: string)
}
