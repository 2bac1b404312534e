/** The language registry (`de.jplag.Languages`): the display names of the
    installed language providers, sorted, and the lookup of a provider by
    display name.  The providers `ServiceLoader` finds are a given sequence;
    the language each one builds is named by the frontend it comes from. */
module Languages {
  import opened Wrappers
  import opened Sorting

  /** The frontends python3, csharp, scheme, char, java, text and cpp. */
  datatype Frontend = Python3 | CSharp | Scheme | Chars | Java | Text | Cpp

  datatype LanguageProvider = LanguageProvider(displayName: string, frontend: Frontend)

  /** `LanguageProviderNotFoundException`, with the name that was asked for. */
  datatype LanguageProviderNotFound = LanguageProviderNotFound(languageName: string)

  /** The exception's message. */
  function Message(e: LanguageProviderNotFound): (m: string)
    ensures |m| == |e.languageName| + 41 && m[31..|m| - 10] == e.languageName
    ensures m[..31] == "Language Provider for language " && m[|m| - 10..] == " not found"
  {
    "Language Provider for language " + e.languageName + " not found"
  }

  const DefaultLanguage: string := "java"

  /** `String.compareTo(a, b) <= 0`: the first differing character decides,
      and a proper prefix comes first.  Characters are compared as Unicode
      code points, where Java compares UTF-16 code units. */
  predicate LexLe(a: string, b: string)
  {
    if a == [] then true
    else if b == [] then false
    else if a[0] != b[0] then a[0] < b[0]
    else LexLe(a[1..], b[1..])
  }

  lemma {:induction false} LexLeTotal(a: string, b: string)
    ensures LexLe(a, b) || LexLe(b, a)
  {
    if a != [] && b != [] && a[0] == b[0] {
      LexLeTotal(a[1..], b[1..]);
    }
  }

  lemma {:induction false} LexLeTransitive(a: string, b: string, c: string)
    requires LexLe(a, b) && LexLe(b, c)
    ensures LexLe(a, c)
  {
    if a != [] && b != [] && c != [] && a[0] == b[0] && b[0] == c[0] {
      LexLeTransitive(a[1..], b[1..], c[1..]);
    }
  }

  /** Only equal strings come before each other. */
  lemma {:induction false} LexLeAntisymmetric(a: string, b: string)
    requires LexLe(a, b) && LexLe(b, a)
    ensures a == b
  {
    if a != [] && b != [] {
      LexLeAntisymmetric(a[1..], b[1..]);
      assert a == [a[0]] + a[1..] && b == [b[0]] + b[1..];
    }
  }

  lemma LexLeIsTotalPreorder()
    ensures TotalPreorder(LexLe)
  {
    forall a, b ensures LexLe(a, b) || LexLe(b, a) {
      LexLeTotal(a, b);
    }
    forall a, b, c | LexLe(a, b) && LexLe(b, c) ensures LexLe(a, c) {
      LexLeTransitive(a, b, c);
    }
  }

  function DisplayNames(providers: seq<LanguageProvider>): (names: seq<string>)
    ensures |names| == |providers|
    ensures forall i | 0 <= i < |providers| :: names[i] == providers[i].displayName
  {
    seq(|providers|, i requires 0 <= i < |providers| => providers[i].displayName)
  }

  /** `getAllDisplayNames` (lines 12-17). */
  function AllDisplayNames(providers: seq<LanguageProvider>): seq<string>
  {
    Sort(DisplayNames(providers), LexLe)
  }

  /** The names come out in ascending order, and they are exactly the
      providers' display names, each as often as it occurs. */
  lemma AllDisplayNamesSortedPermutation(providers: seq<LanguageProvider>)
    ensures SortedBy(AllDisplayNames(providers), LexLe)
    ensures multiset(AllDisplayNames(providers)) == multiset(DisplayNames(providers))
    ensures |AllDisplayNames(providers)| == |providers|
  {
    LexLeIsTotalPreorder();
    SortSorted(DisplayNames(providers), LexLe);
    SortPermutes(DisplayNames(providers), LexLe);
  }

  predicate DistinctNames(providers: seq<LanguageProvider>)
  {
    forall i, j | 0 <= i < j < |providers| :: providers[i].displayName != providers[j].displayName
  }

  /** `provider(languageName)` (lines 26-31): a provider with that display
      name, or `LanguageProviderNotFoundException` when there is none.  The
      stream is sequential, so `findAny` is taken to give the first match. */
  function Provider(providers: seq<LanguageProvider>, languageName: string)
    : (r: Result<LanguageProvider, LanguageProviderNotFound>)
    ensures r.Ok? ==> r.value in providers && r.value.displayName == languageName
    ensures r.Err? <==> forall p <- providers :: p.displayName != languageName
    ensures r.Err? ==> r.error == LanguageProviderNotFound(languageName)
  {
    if providers == [] then Err(LanguageProviderNotFound(languageName))
    else if providers[0].displayName == languageName then Ok(providers[0])
    else Provider(providers[1..], languageName)
  }

  /** With distinct display names the provider found is the only one with
      that name, so which one `findAny` picks does not matter. */
  lemma ProviderUnique(providers: seq<LanguageProvider>, p: LanguageProvider)
    requires DistinctNames(providers) && p in providers
    ensures Provider(providers, p.displayName) == Ok(p)
  {
    var r := Provider(providers, p.displayName);
    var i :| 0 <= i < |providers| && providers[i] == p;
    var j :| 0 <= j < |providers| && providers[j] == r.value;
    assert i == j;
  }

  /** The providers of those seven frontends (the `getDisplayName` of each
      `*LanguageProvider`). */
  const FrontendProviders: seq<LanguageProvider> := [
    LanguageProvider("python3", Python3),
    LanguageProvider("csharp", CSharp),
    LanguageProvider("scheme", Scheme),
    LanguageProvider("char", Chars),
    LanguageProvider("java", Java),
    LanguageProvider("text", Text),
    LanguageProvider("cpp", Cpp)
  ]

  /** The seven frontends' display names are all different. */
  lemma FrontendNamesDistinct()
    ensures DistinctNames(FrontendProviders)
  {
  }

  /** The default language is the Java frontend's. */
  lemma DefaultLanguageIsJava()
    ensures Provider(FrontendProviders, DefaultLanguage) == Ok(LanguageProvider("java", Java))
  {
    FrontendNamesDistinct();
    assert FrontendProviders[4] == LanguageProvider("java", Java);
    ProviderUnique(FrontendProviders, FrontendProviders[4]);
  }
}
