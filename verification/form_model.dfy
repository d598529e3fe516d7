/**
 The data the submission workflow of the Workflows form add-on reads: a form
 with its items (questions), its responses, and the flag that says whether it
 still accepts responses. Everything is an immutable value; the host's live
 form object becomes a `Form` record that operations return updated.
 */
module FormModel {

  /** The conventional Some/None wrapper, used for searches that may fail. */
  datatype Option<T> = None | Some(value: T)

  /** A form item: the two attributes the script reads, its id and its title. */
  datatype Item = Item(id: int, title: string)

  /** One answer inside a response: the item it answers and the answer text. */
  datatype ItemResponse = ItemResponse(item: Item, response: string)

  /** A response is the ordered list of its item responses. */
  type Response = seq<ItemResponse>

  /** The form as far as the workflow sees it. */
  datatype Form = Form(
    title: string,
    items: seq<Item>,
    responses: seq<Response>,
    accepting: bool)

  /** Item title whose answer overrides the submission limit. */
  const LimitLabel: string := "Form Submission Limit"

  /** Item title whose answer overrides the notification address. */
  const AddressLabel: string := "Email Address"

  /** Submission limit used when no response overrides it. */
  const DefaultLimit: nat := 100

  /** Notification address used when no response overrides it. */
  const DefaultAddress: string := "heli.patel91@gmail.com"

  /** The title of the item an answer belongs to. */
  function TitleOf(a: ItemResponse): string
  {
    a.item.title
  }

  /** No answer in any of the responses is to an item titled `wanted`. */
  ghost predicate NoAnswerTitled(rs: seq<Response>, wanted: string)
  {
    forall i, j :: 0 <= i < |rs| && 0 <= j < |rs[i]| ==> TitleOf(rs[i][j]) != wanted
  }

  /** A prefix of a history without such answers has none either. */
  lemma NoAnswerTitledPrefix(rs: seq<Response>, k: nat, wanted: string)
    requires k <= |rs| && NoAnswerTitled(rs, wanted)
    ensures NoAnswerTitled(rs[..k], wanted)
  {
  }
}
