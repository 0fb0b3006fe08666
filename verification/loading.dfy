/** What the two corpus loaders share: choosing the requested splits in their
    fixed order, reading each requested split file, and handing the parsed
    splits back either bare (exactly one split) or as a tuple (any other number). */
module Loading {

  datatype Result<T, E> = Success(value: T) | Failure(error: E)

  /** Opening a split file that is not in the dataset directory raises. */
  datatype LoadError = MissingFile(filename: string)

  /** What a loader returns: the bare dataset when exactly one split was
      requested, otherwise the tuple of the requested splits (empty when none). */
  datatype Loaded<T> = Single(value: T) | Multi(values: seq<T>)

  /** The splits a returned value holds, in order. */
  function Components<T>(l: Loaded<T>): seq<T>
  {
    match l
    case Single(x) => [x]
    case Multi(xs) => xs
  }

  /** A value the loaders can return: a tuple never holds exactly one split. */
  predicate WellShaped<T>(l: Loaded<T>)
  {
    l.Multi? ==> |l.values| != 1
  }

  /** The filenames of the requested splits, keeping the order in which the
      splits are listed: `[name for (requested, name) in splits if requested]`. */
  function Requested(splits: seq<(bool, string)>): (names: seq<string>)
    ensures |names| <= |splits|
    ensures forall n :: n in names ==> (true, n) in splits
    ensures forall i :: 0 <= i < |splits| && splits[i].0 ==> splits[i].1 in names
  {
    if splits == [] then []
    else (if splits[0].0 then [splits[0].1] else []) + Requested(splits[1..])
  }

  /** Filtering a list of splits is filtering its parts one after the other:
      the requested names keep the relative order of their splits. */
  lemma {:induction false} RequestedAppend(a: seq<(bool, string)>, b: seq<(bool, string)>)
    ensures Requested(a + b) == Requested(a) + Requested(b)
  {
    if a == [] {
      assert a + b == b;
    } else {
      assert (a + b)[1..] == a[1..] + b;
      RequestedAppend(a[1..], b);
    }
  }

  /** The filename of one split, when requested. */
  function Optional(requested: bool, name: string): seq<string>
  {
    if requested then [name] else []
  }

  lemma RequestedOne(split: (bool, string))
    ensures Requested([split]) == Optional(split.0, split.1)
  {
    assert [split][1..] == [];
  }

  /** Filtering two splits keeps each requested filename, in listed order. */
  lemma RequestedTwo(first: bool, second: bool, firstName: string, secondName: string)
    ensures Requested([(first, firstName), (second, secondName)])
            == Optional(first, firstName) + Optional(second, secondName)
  {
    assert [(first, firstName), (second, secondName)] == [(first, firstName)] + [(second, secondName)];
    RequestedAppend([(first, firstName)], [(second, secondName)]);
    RequestedOne((first, firstName));
    RequestedOne((second, secondName));
  }

  /** Filtering three splits keeps each requested filename, in listed order. */
  lemma RequestedThree(first: bool, second: bool, third: bool,
                       firstName: string, secondName: string, thirdName: string)
    ensures Requested([(first, firstName), (second, secondName), (third, thirdName)])
            == Optional(first, firstName) + Optional(second, secondName) + Optional(third, thirdName)
  {
    assert [(first, firstName), (second, secondName), (third, thirdName)]
           == [(first, firstName), (second, secondName)] + [(third, thirdName)];
    RequestedAppend([(first, firstName), (second, secondName)], [(third, thirdName)]);
    RequestedTwo(first, second, firstName, secondName);
    RequestedOne((third, thirdName));
  }

  /** The single/tuple return rule: one parsed split comes back bare, any other
      number comes back as a tuple holding exactly the parsed splits. */
  function Shape<T>(ret: seq<T>): (r: Loaded<T>)
    ensures r.Single? <==> |ret| == 1
    ensures Components(r) == ret
    ensures WellShaped(r)
  {
    if |ret| == 1 then Single(ret[0]) else Multi(ret)
  }

  /** Shape loses nothing: every value a loader can return is the shape of its
      own components, so the caller can always recover the list of splits. */
  lemma ShapeOfComponents<T>(l: Loaded<T>)
    requires WellShaped(l)
    ensures Shape(Components(l)) == l
  {
  }

  /** Regrouping a concatenation of four sequences. */
  lemma Associate<T>(p: seq<T>, q: seq<T>, r: seq<T>, t: seq<T>)
    ensures p + (q + r + t) == (p + q) + r + t
  {
  }

  /** `[f(x) for x in xs]`, built front to back. */
  function Map<L, T>(xs: seq<L>, f: L -> T): (r: seq<T>)
    ensures |r| == |xs|
  {
    if xs == [] then [] else Map(xs[..|xs| - 1], f) + [f(xs[|xs| - 1])]
  }

  /** Mapping one more element appends its image. */
  lemma MapStep<L, T>(xs: seq<L>, i: nat, f: L -> T)
    requires i < |xs|
    ensures Map(xs[..i + 1], f) == Map(xs[..i], f) + [f(xs[i])]
  {
    assert xs[..i + 1][..i] == xs[..i];
  }

  /** The i-th element of the mapped list is f of the i-th element. */
  lemma {:induction false} MapAt<L, T>(xs: seq<L>, f: L -> T)
    ensures forall i :: 0 <= i < |xs| ==> Map(xs, f)[i] == f(xs[i])
  {
    if xs != [] {
      var front := xs[..|xs| - 1];
      MapAt(front, f);
      assert forall i :: 0 <= i < |front| ==> xs[i] == front[i];
    }
  }

  /** Reads and parses each named split file in order. The first name that is
      not a file of the directory makes the whole load fail; otherwise the
      result holds one parsed split per name. */
  function LoadSplits<L, T>(names: seq<string>, files: map<string, seq<L>>, parse: seq<L> -> T)
    : (r: Result<seq<T>, LoadError>)
    ensures r.Success? <==> forall i :: 0 <= i < |names| ==> names[i] in files
    ensures r.Success? ==>
              |r.value| == |names| &&
              forall i :: 0 <= i < |names| ==> r.value[i] == parse(files[names[i]])
    ensures r.Failure? ==>
              exists i :: 0 <= i < |names| && names[i] !in files && r.error == MissingFile(names[i]) &&
                          forall j :: 0 <= j < i ==> names[j] in files
  {
    if names == [] then Success([])
    else
      var front := names[..|names| - 1];
      var last := names[|names| - 1];
      assert forall j :: 0 <= j < |front| ==> front[j] == names[j];
      match LoadSplits(front, files, parse)
      case Failure(e) => Failure(e)
      case Success(ret) =>
        if last !in files then Failure(MissingFile(last))
        else Success(ret + [parse(files[last])])
  }

  /** Loading one more present file appends its parse to a successful load. */
  lemma LoadSplitsStep<L, T>(names: seq<string>, k: nat, files: map<string, seq<L>>, parse: seq<L> -> T,
                             ret: seq<T>)
    requires k < |names| && names[k] in files
    requires LoadSplits(names[..k], files, parse) == Success(ret)
    ensures LoadSplits(names[..k + 1], files, parse) == Success(ret + [parse(files[names[k]])])
  {
    assert names[..k + 1][..k] == names[..k];
  }

  /** Once a prefix of the names fails to load, the whole load fails with the
      same error: files after the first missing one are never opened. */
  lemma LoadSplitsPrefixFails<L, T>(names: seq<string>, k: nat, files: map<string, seq<L>>, parse: seq<L> -> T)
    requires k <= |names| && LoadSplits(names[..k], files, parse).Failure?
    ensures LoadSplits(names, files, parse) == LoadSplits(names[..k], files, parse)
  {
    assert forall j :: 0 <= j < k ==> names[..k][j] == names[j];
  }

  /** What a loader hands back for a load: the shaped splits, or the error. */
  function Returned<T>(load: Result<seq<T>, LoadError>): (r: Result<Loaded<T>, LoadError>)
    ensures r.Success? <==> load.Success?
    ensures r.Success? ==> Components(r.value) == load.value && WellShaped(r.value)
    ensures r.Failure? ==> r.error == load.error
  {
    match load
    case Success(ret) => Success(Shape(ret))
    case Failure(e) => Failure(e)
  }

  /** The return value of a loader with two splits when every requested
      file exists: the parsed requested files, in listed order, shaped. */
  lemma TwoSplitShapes<L, T>(files: map<string, seq<L>>, first: bool, second: bool,
                             firstName: string, secondName: string, parse: seq<L> -> T)
    requires (first ==> firstName in files) && (second ==> secondName in files)
    ensures Returned(LoadSplits(Requested([(first, firstName), (second, secondName)]), files, parse))
            == Success(Shape((if first then [parse(files[firstName])] else [])
                             + (if second then [parse(files[secondName])] else [])))
  {
    RequestedTwo(first, second, firstName, secondName);
    LoadOptional(first, firstName, files, parse);
    LoadOptional(second, secondName, files, parse);
    LoadSplitsAppend(Optional(first, firstName), Optional(second, secondName), files, parse);
  }

  /** The load fails naming the first missing file, whatever follows it. */
  lemma FirstMissing<L, T>(names: seq<string>, i: nat, files: map<string, seq<L>>, parse: seq<L> -> T)
    requires i < |names| && names[i] !in files
    requires forall j :: 0 <= j < i ==> names[j] in files
    ensures LoadSplits(names, files, parse) == Failure(MissingFile(names[i]))
  {
  }

  /** Loading two lists of present files one after the other is loading
      their concatenation. */
  lemma {:induction false} LoadSplitsAppend<L, T>(a: seq<string>, b: seq<string>, files: map<string, seq<L>>,
                                                  parse: seq<L> -> T)
    requires forall i :: 0 <= i < |a| ==> a[i] in files
    requires forall i :: 0 <= i < |b| ==> b[i] in files
    ensures LoadSplits(a + b, files, parse).Success?
    ensures LoadSplits(a + b, files, parse).value
            == LoadSplits(a, files, parse).value + LoadSplits(b, files, parse).value
  {
    if b == [] {
      assert a + b == a;
    } else {
      var front := b[..|b| - 1];
      assert (a + b)[..|a + b| - 1] == a + front;
      LoadSplitsAppend(a, front, files, parse);
    }
  }

  /** Loading one optional file, present whenever it is requested. */
  lemma LoadOptional<L, T>(requested: bool, name: string, files: map<string, seq<L>>, parse: seq<L> -> T)
    requires requested ==> name in files
    ensures LoadSplits(Optional(requested, name), files, parse)
            == Success(if requested then [parse(files[name])] else [])
  {
    if requested {
      assert [name][..0] == [];
      assert LoadSplits([name][..0], files, parse) == Success([]);
      assert [] + [parse(files[name])] == [parse(files[name])];
    }
  }

  /** The return value of a loader with three splits when every requested
      file exists: the parsed requested files, in listed order, shaped. */
  lemma ThreeSplitShapes<L, T>(files: map<string, seq<L>>, first: bool, second: bool, third: bool,
                               firstName: string, secondName: string, thirdName: string,
                               parse: seq<L> -> T)
    requires (first ==> firstName in files) && (second ==> secondName in files) && (third ==> thirdName in files)
    ensures Returned(LoadSplits(Requested([(first, firstName), (second, secondName), (third, thirdName)]),
                                files, parse))
            == Success(Shape((if first then [parse(files[firstName])] else [])
                             + (if second then [parse(files[secondName])] else [])
                             + (if third then [parse(files[thirdName])] else [])))
  {
    RequestedThree(first, second, third, firstName, secondName, thirdName);
    var n1, n2, n3 := Optional(first, firstName), Optional(second, secondName), Optional(third, thirdName);
    LoadOptional(first, firstName, files, parse);
    LoadOptional(second, secondName, files, parse);
    LoadOptional(third, thirdName, files, parse);
    LoadSplitsAppend(n1 + n2, n3, files, parse);
    LoadSplitsAppend(n1, n2, files, parse);
  }

  /** For two splits: the load fails naming the first requested split, in
      listed order, whose file is missing, and succeeds when there is none. */
  lemma MissingOfTwo<L, T>(files: map<string, seq<L>>, first: bool, second: bool,
                           firstName: string, secondName: string, parse: seq<L> -> T)
    ensures var r := LoadSplits(Requested([(first, firstName), (second, secondName)]), files, parse);
      var firstOk := !first || firstName in files;
      var secondOk := !second || secondName in files;
      && (!firstOk ==> r == Failure(MissingFile(firstName)))
      && (firstOk && !secondOk ==> r == Failure(MissingFile(secondName)))
      && (firstOk && secondOk ==> r.Success?)
  {
    RequestedTwo(first, second, firstName, secondName);
    var names := Requested([(first, firstName), (second, secondName)]);
    var a, b := Optional(first, firstName), Optional(second, secondName);
    if first && firstName !in files {
      FirstMissing(names, 0, files, parse);
    } else if second && secondName !in files {
      FirstMissing(names, |a|, files, parse);
    } else {
      assert forall j :: 0 <= j < |a| ==> a[j] in files;
      assert forall j :: 0 <= j < |b| ==> b[j] in files;
      LoadSplitsAppend(a, b, files, parse);
    }
  }

  /** For three splits: the load fails naming the first requested split, in
      listed order, whose file is missing, and succeeds when there is none. */
  lemma MissingOfThree<L, T>(files: map<string, seq<L>>, first: bool, second: bool, third: bool,
                             firstName: string, secondName: string, thirdName: string,
                             parse: seq<L> -> T)
    ensures var r := LoadSplits(Requested([(first, firstName), (second, secondName), (third, thirdName)]),
                                files, parse);
      var firstOk := !first || firstName in files;
      var secondOk := !second || secondName in files;
      var thirdOk := !third || thirdName in files;
      && (!firstOk ==> r == Failure(MissingFile(firstName)))
      && (firstOk && !secondOk ==> r == Failure(MissingFile(secondName)))
      && (firstOk && secondOk && !thirdOk ==> r == Failure(MissingFile(thirdName)))
      && (firstOk && secondOk && thirdOk ==> r.Success?)
  {
    RequestedThree(first, second, third, firstName, secondName, thirdName);
    var names := Requested([(first, firstName), (second, secondName), (third, thirdName)]);
    var a, b := Optional(first, firstName), Optional(second, secondName);
    if first && firstName !in files {
      FirstMissing(names, 0, files, parse);
    } else if second && secondName !in files {
      FirstMissing(names, |a|, files, parse);
    } else if third && thirdName !in files {
      FirstMissing(names, |a| + |b|, files, parse);
    } else {
      var c := Optional(third, thirdName);
      assert forall j :: 0 <= j < |a| ==> a[j] in files;
      assert forall j :: 0 <= j < |b| ==> b[j] in files;
      assert forall j :: 0 <= j < |c| ==> c[j] in files;
      LoadSplitsAppend(a, b, files, parse);
      LoadSplitsAppend(a + b, c, files, parse);
    }
  }
}
