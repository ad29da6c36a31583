/** The texts a collection shows: its display name and the message of a failed `getByName`. */
module Messages {
  import opened Results

  const NotFoundInfix := " with name '"
  const NotFoundSuffix := "' not found."
  const ContainerSuffix := " container"

  /** The not-found message: the type display name, then the requested name in single quotes, then "not found.". */
  function NotFoundMessage(typeDisplayName: string, name: string): (m: string)
    ensures |m| == |typeDisplayName| + |name| + 24
    ensures m[..|typeDisplayName|] == typeDisplayName
  {
    typeDisplayName + NotFoundInfix + name + NotFoundSuffix
  }

  /** Reads the requested name back out of a not-found message about `typeDisplayName`. */
  function NotFoundName(typeDisplayName: string, message: string): (r: Option<string>)
    ensures r.Some? ==> NotFoundMessage(typeDisplayName, r.value) == message
  {
    var head := typeDisplayName + NotFoundInfix;
    if |message| >= |head| + |NotFoundSuffix|
       && message[..|head|] == head
       && message[|message| - |NotFoundSuffix|..] == NotFoundSuffix
    then Some(message[|head|..|message| - |NotFoundSuffix|])
    else None
  }

  /** The message names both the type and the requested name: the name can be read back from it. */
  lemma NotFoundMessageNamesTheName(typeDisplayName: string, name: string)
    ensures NotFoundName(typeDisplayName, NotFoundMessage(typeDisplayName, name)) == Some(name)
  {
    var head := typeDisplayName + NotFoundInfix;
    var m := NotFoundMessage(typeDisplayName, name);
    assert m == head + name + NotFoundSuffix;
    assert m[..|head|] == head;
    assert m[|m| - |NotFoundSuffix|..] == NotFoundSuffix;
    assert m[|head|..|m| - |NotFoundSuffix|] == name;
  }

  /** Different requested names give different messages. */
  lemma NotFoundMessageInjective(typeDisplayName: string, a: string, b: string)
    requires NotFoundMessage(typeDisplayName, a) == NotFoundMessage(typeDisplayName, b)
    ensures a == b
  {
    NotFoundMessageNamesTheName(typeDisplayName, a);
    NotFoundMessageNamesTheName(typeDisplayName, b);
  }

  /** `getDisplayName`: the type display name followed by the word "container". */
  function DisplayName(typeDisplayName: string): (d: string)
    ensures |d| == |typeDisplayName| + 10
    ensures d[..|typeDisplayName|] == typeDisplayName
  {
    typeDisplayName + ContainerSuffix
  }

  /** The type display name a display name was made from, if it is one. */
  function ContainerTypeName(displayName: string): (r: Option<string>)
    ensures r.Some? ==> DisplayName(r.value) == displayName
  {
    if |displayName| >= |ContainerSuffix| && displayName[|displayName| - |ContainerSuffix|..] == ContainerSuffix
    then Some(displayName[..|displayName| - |ContainerSuffix|])
    else None
  }

  lemma DisplayNameRoundTrip(typeDisplayName: string)
    ensures ContainerTypeName(DisplayName(typeDisplayName)) == Some(typeDisplayName)
  {
    var d := DisplayName(typeDisplayName);
    assert d[|d| - |ContainerSuffix|..] == ContainerSuffix;
    assert d[..|d| - |ContainerSuffix|] == typeDisplayName;
  }
}
