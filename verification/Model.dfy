/**
 The records the pipeline stages hand to each other
 (`internal/model/contracts.go`), without timestamps.
 */
module Model {
  datatype Option<+T> = None | Some(value: T)

  datatype Result<+T, +E> = Ok(value: T) | Err(error: E)

  /** What went wrong, in place of the error texts of the program. */
  datatype Cause =
    | BuildRequest
    | Transport
    | Status(code: nat)
    | ReadBody
    | Decode
    | NoRealm
    | EmptyToken
    | MissingArgument
    | EmptyRepository
    | InvalidWorkloadID
    | MissingSpec
    | External(reason: string)

  /** The two sentinel errors of the resolvers, and every other error. */
  datatype ResolveError = ChartNotFound | UnsupportedRepo | Failure(cause: Cause)

  datatype SourceType =
    | ArgoCDApplication
    | HelmReleaseSecret
    | HelmReleaseCM
    | OtherSource(name: string)

  datatype SourceKind = UnknownKind | HelmRepo | OCIRegistry | Git

  datatype VersionStatus = UpToDate | Outdated | UnknownStatus

  datatype WorkloadRecord = WorkloadRecord(
    id: string,
    appName: string,
    namespace: string,
    sourceNamespace: string,
    sourceType: SourceType,
    deploymentType: string
  )

  datatype ChartRecord = ChartRecord(
    workloadID: string,
    chartName: string,
    repoURL: string,
    sourceKind: SourceKind,
    currentVersion: string,
    latestVersion: string,
    status: VersionStatus,
    resolutionError: Option<ResolveError>
  )

  function SourceTypeText(s: SourceType): string {
    match s
    case ArgoCDApplication => "argocd_application"
    case HelmReleaseSecret => "helm_release_secret"
    case HelmReleaseCM => "helm_release_configmap"
    case OtherSource(name) => name
  }

  function KindText(k: SourceKind): string {
    match k
    case UnknownKind => "unknown"
    case HelmRepo => "helm_repo"
    case OCIRegistry => "oci_registry"
    case Git => "git"
  }

  function StatusText(s: VersionStatus): string {
    match s
    case UpToDate => "up_to_date"
    case Outdated => "outdated"
    case UnknownStatus => "unknown"
  }

  /** `workloadID` in `internal/discovery/discovery.go`. */
  function WorkloadID(source: SourceType, namespace: string, name: string): string {
    SourceTypeText(source) + ":" + namespace + ":" + name
  }
}
