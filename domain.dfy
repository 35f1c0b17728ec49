/**
  `Question#domain`: the dotted text of a question's name, rendered from the
  raw length-prefixed label bytes that the `stringz` field holds. The
  rendering does no validation: a length byte that runs past the end of the
  data takes whatever bytes remain.
 */
module DomainName {
  import opened Bytes
  import opened Messages

  /** Each byte read as the character with the same code. */
  function Text(b: seq<Byte>): (t: string)
    ensures |t| == |b|
    ensures forall k :: 0 <= k < |b| ==> t[k] as int == b[k]
  {
    seq(|b|, k requires 0 <= k < |b| => b[k] as char)
  }

  /** Where the label that starts at `s[0]` ends: after `s[0]` bytes, or at the
      end of the data if the length byte runs past it. */
  function LabelEnd(s: seq<Byte>): (e: nat)
    requires |s| > 0
    ensures 1 <= e <= |s|
  {
    if 1 + s[0] <= |s| then 1 + s[0] else |s|
  }

  /** The labels of length-prefixed data, read front to back. */
  function Labels(s: seq<Byte>): (ls: seq<seq<Byte>>)
    ensures s == [] <==> ls == []
    ensures |ls| <= |s|
    decreases |s|
  {
    if s == [] then [] else [s[1..LabelEnd(s)]] + Labels(s[LabelEnd(s)..])
  }

  /** The labels' text joined by single dots. */
  function JoinLabels(ls: seq<seq<Byte>>): string
  {
    if ls == [] then ""
    else if |ls| == 1 then Text(ls[0])
    else JoinLabels(ls[..|ls| - 1]) + "." + Text(ls[|ls| - 1])
  }

  /** The domain of a question's name bytes: the labels joined by dots, then
      the trailing dot of the root. */
  function DomainOf(s: seq<Byte>): (d: string)
    ensures |d| >= 1 && d[|d| - 1] == '.'
    ensures s == [] ==> d == "."
  {
    JoinLabels(Labels(s)) + "."
  }

  lemma JoinLabelsSnoc(ls: seq<seq<Byte>>, l: seq<Byte>)
    ensures JoinLabels(ls + [l]) == if ls == [] then Text(l) else JoinLabels(ls) + "." + Text(l)
  {
    assert (ls + [l])[..|ls|] == ls;
  }

  /** The data still to be read once the loop index has reached `i`. */
  function Remaining(s: seq<Byte>, i: nat): seq<Byte>
  {
    if i < |s| then s[i..] else []
  }

  /** The labels read from index `i` on: the label whose length byte is at
      `i`, clipped to the data, then the labels after it. */
  lemma LabelsFrom(s: seq<Byte>, i: nat, upper: nat)
    requires i < |s|
    requires upper == if i + 1 + s[i] <= |s| then i + 1 + s[i] else |s|
    ensures Labels(Remaining(s, i)) == [s[i + 1..upper]] + Labels(Remaining(s, i + s[i] + 1))
  {
    var t := s[i..];
    var e := LabelEnd(t);
    assert Remaining(s, i) == t;
    assert e == upper - i;
    assert t[1..e] == s[i + 1..upper];
    assert t[e..] == Remaining(s, i + s[i] + 1);
  }

  /** One turn of the `domain` loop keeps its invariant: the labels read so far
      followed by the labels still to read are all the labels, and the text
      built so far is the read labels joined by dots. */
  lemma DomainStep(s: seq<Byte>, i: nat, done: seq<seq<Byte>>, upper: nat)
    requires i < |s|
    requires (i == 0) == (done == [])
    requires Labels(s) == done + Labels(Remaining(s, i))
    requires upper == if i + 1 + s[i] <= |s| then i + 1 + s[i] else |s|
    ensures Labels(s) == done + [s[i + 1..upper]] + Labels(Remaining(s, i + s[i] + 1))
    ensures JoinLabels(done + [s[i + 1..upper]])
         == (if i > 0 then JoinLabels(done) + "." else "") + Text(s[i + 1..upper])
  {
    var l := s[i + 1..upper];
    var later := Labels(Remaining(s, i + s[i] + 1));
    LabelsFrom(s, i, upper);
    assert done + ([l] + later) == done + [l] + later;
    JoinLabelsSnoc(done, l);
  }

  /** `Question#domain`. The loop walks the name bytes; at each step it adds a
      dot unless it is at the start, then the label the length byte at `index`
      announces, clipped to the data, and moves past that label. */
  method Domain(q: Question) returns (name: string)
    ensures name == DomainOf(q.stringData)
  {
    var data := q.stringData;
    var result := "";
    var index := 0;
    ghost var done: seq<seq<Byte>> := [];
    while index < |data|
      invariant (index == 0) == (done == [])
      invariant Labels(data) == done + Labels(Remaining(data, index))
      invariant result == JoinLabels(done)
      decreases |data| - index
    {
      if index > 0 {
        result := result + ".";
      }
      var length := data[index];
      var upper := if index + 1 + length <= |data| then index + 1 + length else |data|;
      DomainStep(data, index, done, upper);
      result := result + Text(data[index + 1..upper]);
      done := done + [data[index + 1..upper]];
      index := index + length + 1;
    }
    assert Remaining(data, index) == [] && done + [] == done;
    name := result + ".";
  }

  // ---------------------------------------------------------------- properties

  /** The rendering starts with the first label's text. A zero first length
      byte makes that text empty, and the rendering then starts with the dot
      that follows the empty label. */
  lemma DomainStartsWithFirstLabel(s: seq<Byte>)
    requires |s| > 0
    ensures Text(s[1..LabelEnd(s)]) <= DomainOf(s)
  {
    JoinLabelsStartsWithFirst(Labels(s));
  }

  lemma {:induction false} JoinLabelsStartsWithFirst(ls: seq<seq<Byte>>)
    requires |ls| > 0
    ensures Text(ls[0]) <= JoinLabels(ls)
  {
    if |ls| > 1 {
      JoinLabelsStartsWithFirst(ls[..|ls| - 1]);
    }
  }

  /** A length byte that runs past the data is clipped: the label takes the
      bytes that remain and the rendering ends there. */
  lemma DomainClipsOverrun(s: seq<Byte>)
    requires |s| > 0 && 1 + s[0] >= |s|
    ensures DomainOf(s) == Text(s[1..]) + "."
  {
    var e := LabelEnd(s);
    assert e == |s| && s[e..] == [] && s[1..e] == s[1..];
    assert Labels(s) == [s[1..e]] + Labels(s[e..]);
  }

  /** Well-formed name bytes: each label preceded by its length. */
  function EncodeLabels(ls: seq<seq<Byte>>): (s: seq<Byte>)
    requires forall i :: 0 <= i < |ls| ==> |ls[i]| < 0x100
  {
    if ls == [] then [] else [|ls[0]|] + ls[0] + EncodeLabels(ls[1..])
  }

  /** Reading the labels of well-formed name bytes gives back those labels. */
  lemma {:induction false} LabelsOfEncoded(ls: seq<seq<Byte>>)
    requires forall i :: 0 <= i < |ls| ==> |ls[i]| < 0x100
    ensures Labels(EncodeLabels(ls)) == ls
  {
    if ls != [] {
      var s := EncodeLabels(ls);
      var l := ls[0];
      assert s == [|l|] + l + EncodeLabels(ls[1..]);
      assert LabelEnd(s) == 1 + |l|;
      assert s[1..LabelEnd(s)] == l;
      assert s[LabelEnd(s)..] == EncodeLabels(ls[1..]);
      LabelsOfEncoded(ls[1..]);
      assert ls == [l] + ls[1..];
    }
  }

  /** For well-formed name bytes the domain is the labels joined by dots,
      followed by the trailing dot. */
  lemma DomainOfEncoded(ls: seq<seq<Byte>>)
    requires forall i :: 0 <= i < |ls| ==> |ls[i]| < 0x100
    ensures DomainOf(EncodeLabels(ls)) == JoinLabels(ls) + "."
  {
    LabelsOfEncoded(ls);
  }
}
