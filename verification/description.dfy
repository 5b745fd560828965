/** `createDetailedDescription`: the activity-log sentence that names how
    many numbers a bulk action touched and lists them. */
module Description {
  import Text

  /** The part every description starts with: the base text and the count. */
  function Header(baseText: string, affected: seq<string>): string {
    baseText + " " + Text.NatToString(|affected|) + " numbers"
  }

  function CreateDetailedDescription(baseText: string, affected: seq<string>): (r: string)
    ensures |Header(baseText, affected)| < |r|
    ensures r[..|Header(baseText, affected)|] == Header(baseText, affected)
    ensures r[|r| - 1] == '.'
    ensures |affected| == 0 ==> r == baseText + " 0 numbers."
  {
    if |affected| == 0 then
      assert Text.NatToString(0) == "0";
      baseText + " 0 numbers."
    else
      baseText + " " + Text.NatToString(|affected|) + " numbers: " + Text.JoinWith(affected, ", ") + "."
  }

  /** Every affected mobile is spelled out in the description. */
  lemma DescriptionListsEveryNumber(baseText: string, affected: seq<string>, i: nat)
    requires i < |affected|
    ensures Text.IsInfix(affected[i], CreateDetailedDescription(baseText, affected))
  {
    var joined := Text.JoinWith(affected, ", ");
    Text.JoinedElementsAppear(affected, ", ", i);
    var k :| 0 <= k <= |joined| && Text.InfixAt(affected[i], joined, k);
    var pre := baseText + " " + Text.NatToString(|affected|) + " numbers: ";
    var r := CreateDetailedDescription(baseText, affected);
    assert r == pre + joined + ".";
    assert r[|pre| + k..|pre| + k + |affected[i]|] == joined[k..k + |affected[i]|];
    assert Text.InfixAt(affected[i], r, |pre| + k);
  }
}
