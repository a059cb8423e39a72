/** The profanity wrapper: the first named field whose text the library flags. */
module Profanity {
  import opened Types

  /** containsProfanity: an empty text is never flagged; otherwise ask the library. */
  predicate ContainsProfanity(text: string, profane: string -> bool) {
    text != [] && profane(text)
  }

  /**
   * validateFields: walk the (name, text) pairs in order and report the name
   * of the first flagged one, or None when all are clean.
   */
  function FirstProfaneField(fields: seq<(string, string)>, profane: string -> bool): (r: Option<string>)
    ensures r.None? <==> forall i :: 0 <= i < |fields| ==> !ContainsProfanity(fields[i].1, profane)
    ensures r.Some? ==> exists i :: 0 <= i < |fields| && fields[i].0 == r.value
                                   && ContainsProfanity(fields[i].1, profane)
                                   && forall j :: 0 <= j < i ==> !ContainsProfanity(fields[j].1, profane)
  {
    if fields == [] then None
    else if ContainsProfanity(fields[0].1, profane) then Some(fields[0].0)
    else
      var r := FirstProfaneField(fields[1..], profane);
      if r.Some? then
        ghost var i :| 0 <= i < |fields[1..]| && fields[1..][i].0 == r.value
                       && ContainsProfanity(fields[1..][i].1, profane)
                       && forall j :: 0 <= j < i ==> !ContainsProfanity(fields[1..][j].1, profane);
        assert fields[i + 1] == fields[1..][i];
        assert forall j :: 0 <= j < i + 1 ==> !ContainsProfanity(fields[j].1, profane) by {
          forall j | 0 <= j < i + 1 ensures !ContainsProfanity(fields[j].1, profane) {
            if j > 0 { assert fields[j] == fields[1..][j - 1]; }
          }
        }
        r
      else
        assert forall i :: 0 <= i < |fields| ==> !ContainsProfanity(fields[i].1, profane) by {
          forall i | 0 <= i < |fields| ensures !ContainsProfanity(fields[i].1, profane) {
            if i > 0 { assert fields[i] == fields[1..][i - 1]; }
          }
        }
        r
  }

  /** With a name and a description, the name is reported whenever it is flagged. */
  lemma NameCheckedFirst(name: string, description: string, profane: string -> bool)
    ensures ContainsProfanity(name, profane) ==>
              FirstProfaneField([("name", name), ("description", description)], profane) == Some("name")
    ensures !ContainsProfanity(name, profane) && ContainsProfanity(description, profane) ==>
              FirstProfaneField([("name", name), ("description", description)], profane) == Some("description")
  {
    var fs := [("name", name), ("description", description)];
    assert fs[1..] == [("description", description)];
    assert fs[1..][1..] == [];
  }
}
