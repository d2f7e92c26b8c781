/** The domain allow-list: a string suffix test that respects label boundaries. */
module AllowList {

  // ---- names and their labels ----

  /** The labels of a name: its parts between dots, as splitting on "." gives them. */
  function Labels(name: string): (labels: seq<string>)
    ensures |labels| >= 1
  {
    if name == "" then [""]
    else
      var rest := Labels(name[1..]);
      if name[0] == '.' then [""] + rest else [[name[0]] + rest[0]] + rest[1..]
  }

  /** The labels written out again, with dots between them. */
  function Join(labels: seq<string>): string
    requires |labels| >= 1
  {
    if |labels| == 1 then labels[0] else labels[0] + "." + Join(labels[1..])
  }

  /** Labels hold no dots; with JoinOfLabels that makes them the parts of the name between its dots. */
  lemma {:induction false} LabelsHoldNoDots(name: string)
    ensures forall i :: 0 <= i < |Labels(name)| ==> '.' !in Labels(name)[i]
  {
    if name != "" {
      LabelsHoldNoDots(name[1..]);
    }
  }

  lemma {:induction false} JoinOfLabels(name: string)
    ensures Join(Labels(name)) == name
  {
    if name != "" {
      JoinOfLabels(name[1..]);
      var rest := Labels(name[1..]);
      if name[0] == '.' {
        assert ([""] + rest)[1..] == rest;
      } else {
        var labels := Labels(name);
        assert labels[1..] == rest[1..];
      }
    }
  }

  /** Putting a character in front of a list of labels only touches the first of them. */
  lemma FirstLabelExtends(c: char, front: seq<string>, back: seq<string>)
    requires |front| >= 1
    ensures [[c] + (front + back)[0]] + (front + back)[1..] == [[c] + front[0]] + front[1..] + back
    ensures [""] + (front + back) == [""] + front + back
  {
  }

  lemma {:induction false} LabelsOfDotted(left: string, right: string)
    ensures Labels(left + "." + right) == Labels(left) + Labels(right)
  {
    var name := left + "." + right;
    if left == "" {
      assert name[0] == '.' && name[1..] == right;
    } else {
      var a, b := Labels(left[1..]), Labels(right);
      LabelsOfDotted(left[1..], right);
      assert name[0] == left[0] && name[1..] == left[1..] + "." + right;
      FirstLabelExtends(left[0], a, b);
    }
  }

  lemma {:induction false} JoinOfConcat(front: seq<string>, back: seq<string>)
    requires |front| >= 1 && |back| >= 1
    ensures Join(front + back) == Join(front) + "." + Join(back)
  {
    if |front| == 1 {
      assert (front + back)[1..] == back;
    } else {
      JoinOfConcat(front[1..], back);
      assert (front + back)[1..] == front[1..] + back;
      assert Join(front) + "." + Join(back) == front[0] + "." + (Join(front[1..]) + "." + Join(back));
    }
  }

  predicate EndsWith<T(==)>(whole: seq<T>, end: seq<T>) {
    |end| <= |whole| && whole[|whole| - |end|..] == end
  }

  /** The string test: equal, or ending with a dot and the entry. */
  predicate Matches(domain: string, entry: string) {
    domain == entry || EndsWith(domain, "." + entry)
  }

  /** The string test accepts exactly when the entry's labels end the domain's labels. */
  lemma MatchIsLabelSuffix(domain: string, entry: string)
    ensures Matches(domain, entry) <==> EndsWith(Labels(domain), Labels(entry))
  {
    hide Labels, Join;
    var d, e := Labels(domain), Labels(entry);
    if EndsWith(domain, "." + entry) {
      var front := domain[..|domain| - |"." + entry|];
      assert domain == front + "." + entry;
      LabelsOfDotted(front, entry);
      assert d[|d| - |e|..] == e;
    }
    if EndsWith(d, e) {
      JoinOfLabels(domain);
      JoinOfLabels(entry);
      var front := d[..|d| - |e|];
      assert d == front + e;
      if front == [] {
        assert d == e;
      } else {
        JoinOfConcat(front, e);
        assert domain == Join(front) + ("." + entry);
      }
    }
  }

  // ---- the check ----

  /** The name without the dots it ends with, and with no other change. */
  function StripDots(name: string): (stripped: string)
    ensures stripped <= name
    ensures forall i :: |stripped| <= i < |name| ==> name[i] == '.'
    ensures stripped == "" || stripped[|stripped| - 1] != '.'
  {
    if name != "" && name[|name| - 1] == '.' then StripDots(name[..|name| - 1]) else name
  }

  /** A name without trailing dots, in lower case. */
  function Normalized(name: string, lower: string -> string): string {
    lower(StripDots(name))
  }

  /** A domain passes exactly when the list is empty or the labels of some entry end its own labels. */
  method CheckAllowlisted(domain: string, entries: seq<string>, lower: string -> string) returns (allowed: bool)
    ensures allowed <==>
      || entries == []
      || exists i :: 0 <= i < |entries| &&
           EndsWith(Labels(lower(StripDots(domain))), Labels(lower(StripDots(entries[i]))))
  {
    if entries == [] {
      return true;
    }
    var normalized := Normalized(domain, lower);
    for i := 0 to |entries|
      invariant forall k :: 0 <= k < i ==> !EndsWith(Labels(normalized), Labels(Normalized(entries[k], lower)))
    {
      var entry := Normalized(entries[i], lower);
      MatchIsLabelSuffix(normalized, entry);
      if normalized == entry || EndsWith(normalized, "." + entry) {
        return true;
      }
    }
    return false;
  }
}
