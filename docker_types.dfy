/** pkg/docker/types.go: the records read from `docker inspect`, and
    ParseContainerInfo. JSON decoding is library code: the decoder's outcome
    is the input, None when the text is not a JSON array of containers. */
module DockerTypes {
  import opened Wrappers
  import opened Strs
  import opened Errors

  datatype Mount = Mount(name: string, source: string, destination: string, kind: string, rw: bool)

  /** The container's own Config is kept as the raw JSON text it was read as. */
  datatype ContainerInfo = ContainerInfo(id: string, name: string, mounts: seq<Mount>, config: string)

  datatype VolumeConfig = VolumeConfig(name: string, driver: string, options: map<string, string>, labels: map<string, string>)

  datatype IPAMConfig = IPAMConfig(subnet: string, gateway: string, ipRange: string)

  datatype IPAM = IPAM(driver: string, config: seq<IPAMConfig>)

  /** A nil Options map is the empty map. */
  datatype NetworkConfig = NetworkConfig(
    name: string, driver: string, options: map<string, string>,
    internal: bool, attachable: bool, ingress: bool, ipam: IPAM, labels: map<string, string>)

  datatype ProjectContainerRef = ProjectContainerRef(service: string, id: string, containerName: string)

  /** ErrEmptyInspect (pkg/docker/client.go). */
  const EmptyInspect := Failure("docker inspect returned empty result")

  /** ParseContainerInfo: the first inspected container, its name without
      the one leading "/" Docker puts there. */
  function ParseContainerInfo(decoded: Option<seq<ContainerInfo>>): (r: Result<ContainerInfo, Error>)
    ensures r.Err? <==> decoded.None? || decoded.value == []
    ensures r.Err? ==> r.error == EmptyInspect
    ensures r.Ok? ==> r.value.id == decoded.value[0].id && r.value.mounts == decoded.value[0].mounts
                      && r.value.config == decoded.value[0].config
    ensures r.Ok? && HasPrefix(decoded.value[0].name, "/") ==> "/" + r.value.name == decoded.value[0].name
    ensures r.Ok? && !HasPrefix(decoded.value[0].name, "/") ==> r.value.name == decoded.value[0].name
  {
    match decoded
    case None => Err(EmptyInspect)
    case Some(arr) =>
      if arr == [] then Err(EmptyInspect)
      else
        var info := arr[0];
        if |info.name| > 0 && info.name[0] == '/' then Ok(info.(name := info.name[1..])) else Ok(info)
  }

  /** Only one "/" is removed: the name Docker reports as "/" + n comes back as n,
      whatever n starts with. */
  lemma InspectNameRoundTrip(info: ContainerInfo, rest: seq<ContainerInfo>, n: string)
    requires info.name == "/" + n
    ensures ParseContainerInfo(Some([info] + rest)) == Ok(info.(name := n))
  {
    assert ([info] + rest)[0] == info;
    assert info.name[1..] == n;
  }
}
