/**
 * The client's submission form: it writes a query only when the four text
 * fields are all filled in; the image stays optional.
 */
module ClientForm {
  import opened Wrappers
  import opened QueryIds
  import opened Queries

  /** The form's `not x` test: a Python string is false exactly when it is empty. */
  predicate FieldsFilled(mailId: string, mobileNumber: string, heading: string, description: string)
    ensures FieldsFilled(mailId, mobileNumber, heading, description) <==>
              |mailId| > 0 && |mobileNumber| > 0 && |heading| > 0 && |description| > 0
  {
    mailId != "" && mobileNumber != "" && heading != "" && description != ""
  }

  /** An empty required field is a validation failure with no write; otherwise the query is inserted. */
  method Submit(store: QueryTable, mailId: string, mobileNumber: string, heading: string, description: string,
                image: Option<seq<byte>>, now: string)
    returns (r: Result<string, Error>)
    modifies store
    ensures !FieldsFilled(mailId, mobileNumber, heading, description) ==>
              r == Failure(ValidationError) && store.rows == old(store.rows)
    ensures FieldsFilled(mailId, mobileNumber, heading, description) ==>
              var id := NextQueryId(old(store.rows).Keys);
              var q := NewQuery(mailId, mobileNumber, heading, description, image, now);
              match InsertRow(old(store.rows), id, q)
              case Success(t) => r == Success(id) && store.rows == t
              case Failure(e) => r == Failure(e) && store.rows == old(store.rows)
  {
    if !FieldsFilled(mailId, mobileNumber, heading, description) {
      return Failure(ValidationError);
    }
    r := store.InsertQuery(mailId, mobileNumber, heading, description, image, now);
  }
}
