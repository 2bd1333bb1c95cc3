/** One neighborhood record, restricted to what the record service reads and writes. */
module Records {

  datatype Comment = Comment(commentId: string, text: string)

  /** The fields of a stored neighborhood that no modelled operation reads or writes:
      they are carried along unchanged. */
  datatype Untouched = Untouched(imagePath: string, ratings: seq<int>, comments: seq<Comment>)

  datatype Record = Record(
    id: int,
    name: string,
    image: string,
    city: string,
    state: string,
    shortDesc: string,
    rest: Untouched)

  /** The record CreateData builds: the given id and every text field empty. */
  function Blank(id: int, rest: Untouched): (r: Record)
    ensures r.id == id && r.rest == rest
    ensures r.name == "" && r.image == "" && r.city == "" && r.state == "" && r.shortDesc == ""
  {
    Record(id, "", "", "", "", "", rest)
  }

  /** `target` after UpdateData copies the five editable fields of `data` onto it. */
  function Edited(target: Record, data: Record): (r: Record)
    ensures r.id == target.id && r.rest == target.rest
    ensures r.name == data.name && r.image == data.image && r.city == data.city
    ensures r.state == data.state && r.shortDesc == data.shortDesc
  {
    target.(name := data.name, image := data.image, city := data.city,
            state := data.state, shortDesc := data.shortDesc)
  }
}
